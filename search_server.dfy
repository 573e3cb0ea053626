/** The SearchServer class: the stop words, the documents with their
    metadata, the id list in insertion order, and the inverted index from
    words to per-document term frequencies. */
module Server {
  import opened Documents
  import opened StringProcessing
  import opened StringOrder
  import opened QueryParsing
  import opened Rating
  import opened TermFrequency
  import opened Ranking
  import opened Scoring

  /** Stop words are non-empty (MakeUniqueNonEmptyStrings) and valid (the
      constructor throws otherwise). */
  predicate ValidStopWords(stopWords: set<string>) {
    forall w :: w in stopWords ==> w != "" && IsValidWord(w)
  }

  predicate DistinctIds(ids: seq<int>) {
    forall i, j :: 0 <= i < j < |ids| ==> ids[i] != ids[j]
  }

  /** document_ids lists each stored document once, in insertion order, and
      only non-negative ids get stored. */
  ghost predicate IdsMatchDocuments(ids: seq<int>, documents: map<int, DocumentData>) {
    && DistinctIds(ids)
    && (forall k :: 0 <= k < |ids| ==> ids[k] >= 0)
    && (forall d :: d in documents <==> d in ids)
    && |documents| == |ids|
  }

  /** The indexed words of every document are tokens of its text that are
      valid and not stop words. */
  ghost predicate WordsWellFormed(documentWords: map<int, seq<string>>, stopWords: set<string>) {
    forall d, k :: d in documentWords && 0 <= k < |documentWords[d]| ==>
      IsToken(documentWords[d][k]) && IsValidWord(documentWords[d][k]) && documentWords[d][k] !in stopWords
  }

  /** The inverted index holds, for every word of every document and
      nothing else, that word's term frequency in the document; no word
      has an empty posting map. */
  ghost predicate IndexMatches(index: Index, documentWords: map<int, seq<string>>) {
    && (forall w :: w in index ==> index[w].Keys != {})
    && (forall w, d :: w in index && d in index[w] ==>
          d in documentWords && w in documentWords[d] && index[w][d] == Tf(documentWords[d], w))
    && (forall d, w :: d in documentWords && w in documentWords[d] ==> w in index && d in index[w])
  }

  /** How a successful AddDocument of `words` under a new id changes the
      index: the new words appear as keys, the id is listed exactly under
      its words with their term frequencies, and every other document's
      entries stay as they were. */
  ghost predicate IndexAdds(oldIndex: Index, index: Index, id: int, words: seq<string>) {
    && (forall w :: w in index <==> w in oldIndex || w in words)
    && (forall w :: w in index && id in index[w] <==> w in words)
    && (forall w :: w in words ==> index[w][id] == Tf(words, w))
    && (forall w, d :: d != id ==> (w in index && d in index[w] <==> w in oldIndex && d in oldIndex[w]))
    && (forall w, d :: d != id && w in oldIndex && d in oldIndex[w] ==> index[w][d] == oldIndex[w][d])
  }

  /** Adding a document whose id is new keeps the index consistent with the
      documents' words. */
  lemma IndexAddsMatches(oldIndex: Index, index: Index, documentWords: map<int, seq<string>>,
                         id: int, words: seq<string>)
    requires IndexMatches(oldIndex, documentWords)
    requires id !in documentWords
    requires IndexAdds(oldIndex, index, id, words)
    ensures IndexMatches(index, documentWords[id := words])
  {
    var dw := documentWords[id := words];
    forall w | w in index ensures index[w].Keys != {} {
      if w in words {
        assert id in index[w];
      } else {
        assert w in oldIndex;
        NonEmptyHasElement(oldIndex[w].Keys);
        var d :| d in oldIndex[w];
        assert d != id;
        assert d in index[w];
      }
    }
  }

  /** A document whose words are all stop words leaves the index exactly
      as it was: no entry for it under any word, and no new word. */
  lemma NoWordsNoEntries(oldIndex: Index, index: Index, id: int)
    requires forall w :: w in oldIndex ==> id !in oldIndex[w]
    requires IndexAdds(oldIndex, index, id, [])
    ensures index == oldIndex
  {
    assert index.Keys == oldIndex.Keys;
    forall w | w in index ensures index[w] == oldIndex[w] {
      forall d ensures d in index[w] <==> d in oldIndex[w] {
        if d == id {
          assert w !in [];
        }
      }
      assert index[w].Keys == oldIndex[w].Keys;
      forall d | d in index[w] ensures index[w][d] == oldIndex[w][d] {
        assert d != id;
      }
    }
  }

  /** A non-empty set of ids has an element. */
  lemma NonEmptyHasElement(s: set<int>)
    requires s != {}
    ensures exists d :: d in s
  {
    assert (forall d :: d !in s) ==> s == {};
  }

  /** C++ `index[w][id] += inc`: a missing posting map or entry starts
      from zero. */
  function AddOccurrence(index: Index, id: int, w: string, inc: real): (r: Index)
    ensures r.Keys == index.Keys + {w}
    ensures id in r[w] && r[w][id] == (if w in index && id in index[w] then index[w][id] else 0.0) + inc
    ensures forall v, d :: (v != w || d != id) ==>
              (v in r && d in r[v] <==> v in index && d in index[v])
    ensures forall v, d :: (v != w || d != id) && v in index && d in index[v] ==> r[v][d] == index[v][d]
  {
    var postings := if w in index then index[w] else map[];
    var tf := if id in postings then postings[id] else 0.0;
    index[w := postings[id := tf + inc]]
  }

  /** Only document id's entries differ between the two indexes. */
  ghost predicate OthersUnchanged(oldIndex: Index, index: Index, id: int) {
    && (forall w, d :: d != id ==> (w in index && d in index[w] <==> w in oldIndex && d in oldIndex[w]))
    && (forall w, d :: d != id && w in oldIndex && d in oldIndex[w] ==> index[w][d] == oldIndex[w][d])
  }

  /** Document id is listed exactly under the words of prefix, with inc per
      occurrence. */
  ghost predicate ListedUnder(index: Index, id: int, prefix: seq<string>, inc: real) {
    && (forall w :: w in index && id in index[w] <==> w in prefix)
    && (forall w :: w in prefix ==> index[w][id] == Repeated(multiset(prefix)[w], inc))
  }

  /** inc added c times to 0.0, as `+=` does once per occurrence. */
  function Repeated(c: nat, inc: real): real {
    if c == 0 then 0.0 else Repeated(c - 1, inc) + inc
  }

  lemma {:induction false} RepeatedIsProduct(c: nat, inc: real)
    ensures Repeated(c, inc) == c as real * inc
  {
    if c > 0 {
      RepeatedIsProduct(c - 1, inc);
    }
  }

  /** The index after the first words of a new document have been added:
      the id sits under exactly those words, with inc per occurrence, and
      nothing else has changed. */
  ghost predicate PartialAdd(oldIndex: Index, index: Index, id: int, prefix: seq<string>, inc: real) {
    && (forall w :: w in index <==> w in oldIndex || w in prefix)
    && ListedUnder(index, id, prefix, inc)
    && OthersUnchanged(oldIndex, index, id)
  }

  lemma OthersUnchangedStep(oldIndex: Index, index: Index, id: int, w: string, inc: real)
    requires OthersUnchanged(oldIndex, index, id)
    ensures OthersUnchanged(oldIndex, AddOccurrence(index, id, w, inc), id)
  {
  }

  lemma ListedUnderStep(index: Index, id: int, prefix: seq<string>, w: string, inc: real)
    requires ListedUnder(index, id, prefix, inc)
    ensures ListedUnder(AddOccurrence(index, id, w, inc), id, prefix + [w], inc)
  {
    var r := AddOccurrence(index, id, w, inc);
    var p := prefix + [w];
    ListedKeysStep(index, id, prefix, w, inc);
    var c := multiset(prefix)[w];
    assert multiset(p) == multiset(prefix) + multiset{w};
    assert multiset(p)[w] == c + 1;
    if w in prefix {
      assert w in index && id in index[w];
      assert r[w][id] == index[w][id] + inc;
    } else {
      assert !(w in index && id in index[w]);
      assert c == 0;
      assert r[w][id] == inc;
    }
    assert r[w][id] == Repeated(c + 1, inc);
    forall v | v in p && v != w ensures r[v][id] == Repeated(multiset(p)[v], inc) {
      assert v in prefix;
      assert multiset(p)[v] == multiset(prefix)[v];
    }
  }

  lemma ListedKeysStep(index: Index, id: int, prefix: seq<string>, w: string, inc: real)
    requires forall v :: v in index && id in index[v] <==> v in prefix
    ensures forall v :: v in AddOccurrence(index, id, w, inc) && id in AddOccurrence(index, id, w, inc)[v] <==>
                          v in prefix + [w]
  {
    var r := AddOccurrence(index, id, w, inc);
    forall v ensures v in r && id in r[v] <==> v in prefix + [w] {
      assert v in prefix + [w] <==> v in prefix || v == w;
    }
  }

  lemma PartialAddStart(index: Index, documentWords: map<int, seq<string>>, id: int, inc: real)
    requires IndexMatches(index, documentWords)
    requires id !in documentWords
    ensures PartialAdd(index, index, id, [], inc)
  {
  }

  lemma PartialAddStep(oldIndex: Index, index: Index, id: int, prefix: seq<string>, w: string, inc: real)
    requires PartialAdd(oldIndex, index, id, prefix, inc)
    ensures PartialAdd(oldIndex, AddOccurrence(index, id, w, inc), id, prefix + [w], inc)
  {
    OthersUnchangedStep(oldIndex, index, id, w, inc);
    ListedUnderStep(index, id, prefix, w, inc);
    assert forall v :: v in prefix + [w] <==> v in prefix || v == w;
  }

  /** Once every word has been added with inc = 1 / |words|, the id's
      entries are the term frequencies. */
  lemma PartialAddComplete(oldIndex: Index, index: Index, id: int, words: seq<string>, inc: real)
    requires PartialAdd(oldIndex, index, id, words, inc)
    requires words != [] ==> inc == 1.0 / |words| as real
    ensures IndexAdds(oldIndex, index, id, words)
  {
    forall w | w in words ensures index[w][id] == Tf(words, w) {
      RepeatedIsProduct(multiset(words)[w], inc);
      ScaleByInverse(multiset(words)[w], |words|);
    }
  }

  /** Scaling by 1 / n, as the index update does per occurrence, is dividing by n. */
  lemma ScaleByInverse(c: nat, n: nat)
    requires n > 0
    ensures c as real * (1.0 / n as real) == c as real / n as real
  {
  }

  /** The indexing loop of AddDocument: `index[word][id] += inc` for every
      word of the document, in order. */
  method IndexWords(index: Index, id: int, words: seq<string>, inc: real) returns (r: Index)
    requires PartialAdd(index, index, id, [], inc)
    ensures PartialAdd(index, r, id, words, inc)
  {
    r := index;
    assert words[..0] == [];
    for i := 0 to |words|
      invariant PartialAdd(index, r, id, words[..i], inc)
    {
      PartialAddStep(index, r, id, words[..i], words[i], inc);
      assert words[..i + 1] == words[..i] + [words[i]];
      r := AddOccurrence(r, id, words[i], inc);
    }
    assert words[..|words|] == words;
  }

  /** What MatchDocument reports for a stored document with the given
      indexed words: nothing if a minus-word occurs in it, otherwise the
      plus-words occurring in it, in increasing order, each once. */
  ghost predicate IsMatchResult(q: Query, documentWords: seq<string>, matched: seq<string>) {
    if exists w :: w in q.minusWords && w in documentWords then matched == []
    else StrictlySorted(matched) && forall w :: w in matched <==> w in q.plusWords && w in documentWords
  }

  /** The state of MatchDocument's first loop after i plus-words: the
      words so far under which the document is listed, in order, all below
      the plus-words still to come. */
  ghost predicate PlusMatched(index: Index, plus: seq<string>, id: int, i: nat, matched: seq<string>)
    requires i <= |plus|
  {
    && StrictlySorted(matched)
    && (forall w :: w in matched <==> w in plus[..i] && w in index && id in index[w])
    && (forall k, j :: 0 <= k < |matched| && i <= j < |plus| ==> Less(matched[k], plus[j]))
  }

  lemma PlusMatchStep(index: Index, plus: seq<string>, id: int, i: nat, matched: seq<string>, next: seq<string>)
    requires i < |plus| && StrictlySorted(plus)
    requires PlusMatched(index, plus, id, i, matched)
    requires next == if plus[i] in index && id in index[plus[i]] then matched + [plus[i]] else matched
    ensures PlusMatched(index, plus, id, i + 1, next)
  {
    assert plus[..i + 1] == plus[..i] + [plus[i]];
  }

  /** In a consistent index a document is listed under a word exactly when
      the word is one of its indexed words. */
  lemma PostedIffOccurs(index: Index, documentWords: map<int, seq<string>>, words: seq<string>, d: int)
    requires IndexMatches(index, documentWords)
    requires d in documentWords
    ensures Posted(index, words, d) <==> exists w :: w in words && w in documentWords[d]
  {
  }

  /** Every document listed in the index is stored. */
  ghost predicate ListedStored(index: Index, documents: map<int, DocumentData>) {
    forall w, d :: w in index && d in index[w] ==> d in documents
  }

  /** The relevance map of FindAllDocuments once the plus-words `words`
      are done: an entry for exactly the stored documents listed under one
      of them that the predicate accepts, holding their relevance. */
  ghost predicate PlusAccumulated(index: Index, documents: map<int, DocumentData>, ln: real -> real,
                                  pred: DocumentPredicate, words: seq<string>, relevance: map<int, real>) {
    && (forall d :: d in relevance <==>
          d in documents && Posted(index, words, d) && pred(d, documents[d].status, documents[d].rating))
    && (forall d :: d in relevance ==> relevance[d] == Relevance(index, |documents|, ln, words, d))
  }

  /** The first loop of FindAllDocuments: for every plus-word in the index,
      add term frequency times IDF to each listed document the predicate
      accepts. */
  method AccumulatePlusWords(index: Index, documents: map<int, DocumentData>, plusWords: seq<string>,
                             pred: DocumentPredicate, ln: real -> real)
    returns (relevance: map<int, real>)
    requires ListedStored(index, documents)
    requires forall w :: w in index ==> |index[w]| > 0
    ensures PlusAccumulated(index, documents, ln, pred, plusWords, relevance)
  {
    var n := |documents|;
    relevance := map[];
    assert plusWords[..0] == [];
    for i := 0 to |plusWords|
      invariant PlusAccumulated(index, documents, ln, pred, plusWords[..i], relevance)
    {
      var w := plusWords[i];
      ghost var done: set<int> := {};
      WordStart(index, documents, ln, pred, plusWords[..i], w, relevance);
      if w in index {
        var idf := ln(n as real / |index[w]| as real);
        var rest := index[w].Keys;
        while rest != {}
          invariant rest <= index[w].Keys && done == index[w].Keys - rest
          invariant WordInProgress(index, documents, ln, pred, plusWords[..i], w, done, relevance)
          decreases rest
        {
          NonEmptyHasElement(rest);
          var d :| d in rest;
          var data := documents[d];
          var next := relevance;
          if pred(d, data.status, data.rating) {
            var current := if d in relevance then relevance[d] else 0.0;
            next := relevance[d := current + index[w][d] * idf];
          }
          AddPosting(index, documents, ln, pred, plusWords[..i], w, done, relevance, d, idf, next);
          relevance := next;
          done := done + {d};
          rest := rest - {d};
        }
      }
      WordDone(index, documents, ln, pred, plusWords, i, done, relevance);
    }
    assert plusWords[..|plusWords|] == plusWords;
  }

  /** The state of the first loop in the middle of plus-word w: the
      documents of `done` listed under w have had w's contribution added. */
  ghost predicate WordInProgress(index: Index, documents: map<int, DocumentData>, ln: real -> real,
                                 pred: DocumentPredicate, words: seq<string>, w: string, done: set<int>,
                                 relevance: map<int, real>) {
    && (forall d :: d in relevance <==>
          d in documents && pred(d, documents[d].status, documents[d].rating) &&
          (Posted(index, words, d) || (w in index && d in index[w] && d in done)))
    && (forall d :: d in relevance ==>
          relevance[d] == Relevance(index, |documents|, ln, words, d) +
                          (if w in index && d in index[w] && d in done
                           then Contribution(index, |documents|, ln, w, d) else 0.0))
  }

  lemma WordStart(index: Index, documents: map<int, DocumentData>, ln: real -> real,
                  pred: DocumentPredicate, words: seq<string>, w: string, relevance: map<int, real>)
    requires PlusAccumulated(index, documents, ln, pred, words, relevance)
    ensures WordInProgress(index, documents, ln, pred, words, w, {}, relevance)
  {
  }

  /** Adding the contribution of word w to one more listed document. */
  lemma AddPosting(index: Index, documents: map<int, DocumentData>, ln: real -> real,
                   pred: DocumentPredicate, words: seq<string>, w: string, done: set<int>,
                   relevance: map<int, real>, d: int, idf: real, next: map<int, real>)
    requires WordInProgress(index, documents, ln, pred, words, w, done, relevance)
    requires w in index && d in index[w] && d !in done && d in documents
    requires idf == ln(|documents| as real / |index[w]| as real)
    requires next == if pred(d, documents[d].status, documents[d].rating)
                     then relevance[d := (if d in relevance then relevance[d] else 0.0) + index[w][d] * idf]
                     else relevance
    ensures WordInProgress(index, documents, ln, pred, words, w, done + {d}, next)
  {
    if d !in relevance && pred(d, documents[d].status, documents[d].rating) {
      UnpostedRelevance(index, |documents|, ln, words, d);
    }
  }

  /** Once every document listed under plusWords[i] is done, the relevance
      map is that of the first i + 1 plus-words. */
  lemma WordDone(index: Index, documents: map<int, DocumentData>, ln: real -> real,
                 pred: DocumentPredicate, plusWords: seq<string>, i: nat, done: set<int>,
                 relevance: map<int, real>)
    requires i < |plusWords|
    requires plusWords[i] in index ==> done == index[plusWords[i]].Keys
    requires WordInProgress(index, documents, ln, pred, plusWords[..i], plusWords[i], done, relevance)
    ensures PlusAccumulated(index, documents, ln, pred, plusWords[..i + 1], relevance)
  {
    var w := plusWords[i];
    var n := |documents|;
    forall d ensures (Posted(index, plusWords[..i + 1], d) <==>
                        Posted(index, plusWords[..i], d) || (w in index && d in index[w])) &&
                     Relevance(index, n, ln, plusWords[..i + 1], d) ==
                        Relevance(index, n, ln, plusWords[..i], d) + Contribution(index, n, ln, w, d) {
      PostedStep(index, plusWords, i, d);
      RelevanceStep(index, n, ln, plusWords, i, d);
    }
  }

  /** The second loop of FindAllDocuments: erase every document listed
      under a minus-word. */
  method EraseMinusWords(index: Index, relevance: map<int, real>, minusWords: seq<string>)
    returns (r: map<int, real>)
    ensures forall d :: d in r <==> d in relevance && !Posted(index, minusWords, d)
    ensures forall d :: d in r ==> r[d] == relevance[d]
  {
    r := relevance;
    assert minusWords[..0] == [];
    for i := 0 to |minusWords|
      invariant forall d :: d in r <==> d in relevance && !Posted(index, minusWords[..i], d)
      invariant forall d :: d in r ==> r[d] == relevance[d]
    {
      var w := minusWords[i];
      if w in index {
        var rest := index[w].Keys;
        while rest != {}
          invariant rest <= index[w].Keys
          invariant forall d :: d in r <==>
                      d in relevance && !Posted(index, minusWords[..i], d) && !(d in index[w] && d !in rest)
          invariant forall d :: d in r ==> r[d] == relevance[d]
          decreases rest
        {
          NonEmptyHasElement(rest);
          var d :| d in rest;
          r := r - {d};
          rest := rest - {d};
        }
      }
      forall d ensures Posted(index, minusWords[..i + 1], d) <==>
                         Posted(index, minusWords[..i], d) || (w in index && d in index[w]) {
        PostedStep(index, minusWords, i, d);
      }
    }
    assert minusWords[..|minusWords|] == minusWords;
  }

  /** The last loop of FindAllDocuments: one result per entry of the
      relevance map, in increasing id order (the map's iteration order),
      with the stored rating. */
  method ToDocuments(relevance: map<int, real>, documents: map<int, DocumentData>)
    returns (matched: seq<Document>)
    requires relevance.Keys <= documents.Keys
    ensures forall i, j :: 0 <= i < j < |matched| ==> matched[i].id < matched[j].id
    ensures forall k :: 0 <= k < |matched| ==>
              matched[k].id in relevance &&
              matched[k] == Document(matched[k].id, relevance[matched[k].id], documents[matched[k].id].rating)
    ensures forall d :: d in relevance ==> d in Ids(matched)
  {
    matched := [];
    var rest := relevance.Keys;
    while rest != {}
      invariant rest <= relevance.Keys
      invariant Emitted(relevance, documents, rest, matched)
      decreases rest
    {
      SmallestExists(rest);
      var d :| IsLeast(d, rest);
      EmitSmallest(relevance, documents, rest, matched, d);
      matched := matched + [Document(d, relevance[d], documents[d].rating)];
      rest := rest - {d};
    }
  }

  /** The state of ToDocuments' loop: the ids not in rest have been emitted
      in increasing order, each below every id still in rest. */
  ghost predicate Emitted(relevance: map<int, real>, documents: map<int, DocumentData>,
                          rest: set<int>, matched: seq<Document>)
    requires relevance.Keys <= documents.Keys
  {
    && (forall d :: d in relevance && d !in rest ==> d in Ids(matched))
    && (forall i, j :: 0 <= i < j < |matched| ==> matched[i].id < matched[j].id)
    && (forall k, d :: 0 <= k < |matched| && d in rest ==> matched[k].id < d)
    && (forall k :: 0 <= k < |matched| ==>
          matched[k].id in relevance &&
          matched[k] == Document(matched[k].id, relevance[matched[k].id], documents[matched[k].id].rating))
  }

  /** Emitting the smallest remaining id keeps the loop state. */
  lemma EmitSmallest(relevance: map<int, real>, documents: map<int, DocumentData>,
                     rest: set<int>, matched: seq<Document>, d: int)
    requires relevance.Keys <= documents.Keys && rest <= relevance.Keys
    requires Emitted(relevance, documents, rest, matched)
    requires IsLeast(d, rest)
    ensures Emitted(relevance, documents, rest - {d}, matched + [Document(d, relevance[d], documents[d].rating)])
  {
    var next := matched + [Document(d, relevance[d], documents[d].rating)];
    assert Ids(next) == Ids(matched) + [d] by {
      assert next[..|matched|] == matched;
    }
    forall k, x | 0 <= k < |next| && x in rest - {d} ensures next[k].id < x {
      if k < |matched| {
        assert next[k] == matched[k];
      }
    }
  }

  /** m is the smallest element of s. */
  predicate IsLeast(m: int, s: set<int>) {
    m in s && forall x :: x in s ==> m <= x
  }

  /** A non-empty finite set of ids has a smallest element. */
  lemma SmallestExists(s: set<int>)
    requires s != {}
    ensures exists m :: IsLeast(m, s)
  {
    NonEmptyHasElement(s);
    var y :| y in s;
    var t := s - {y};
    if t == {} {
      LeastOf(s, t, y, y);
    } else {
      SmallestExists(t);
      var m :| IsLeast(m, t);
      var least := if y < m then y else m;
      LeastOf(s, t, y, least);
    }
  }

  /** An element of s that is at most y and no larger than anything in
      t = s - {y} is the least element of s. */
  lemma LeastOf(s: set<int>, t: set<int>, y: int, m: int)
    requires t == s - {y} && m in s && m <= y
    requires forall x :: x in t ==> m <= x
    ensures IsLeast(m, s)
  {
    forall x | x in s ensures m <= x {
      if x != y {
        assert x in t;
      }
    }
  }

  /** The three loops of FindAllDocuments, over the index and the stored
      documents. */
  method MatchAll(index: Index, documents: map<int, DocumentData>, query: Query,
                  pred: DocumentPredicate, ln: real -> real)
    returns (matched: seq<Document>)
    requires ListedStored(index, documents)
    requires forall w :: w in index ==> |index[w]| > 0
    ensures IsAllDocuments(index, documents, query, pred, ln, matched)
  {
    var plus := AccumulatePlusWords(index, documents, query.plusWords, pred, ln);
    var relevance := EraseMinusWords(index, plus, query.minusWords);
    assert forall d :: d in relevance ==> d in documents;
    matched := ToDocuments(relevance, documents);
  }

  /** The class invariant of SearchServer, over its four fields and the
      ghost map of each document's indexed words. */
  ghost predicate Consistent(ids: seq<int>, stopWords: set<string>, index: Index,
                             documents: map<int, DocumentData>, documentWords: map<int, seq<string>>) {
    && ValidStopWords(stopWords)
    && IdsMatchDocuments(ids, documents)
    && documentWords.Keys == documents.Keys
    && WordsWellFormed(documentWords, stopWords)
    && IndexMatches(index, documentWords)
  }

  /** The indexed words of a valid text are valid, space-free, non-empty
      and not stop words. */
  lemma NonStopWordsWellFormed(text: string, stopWords: set<string>)
    requires AllValid(Tokens(text))
    ensures var words := NonStopWords(Tokens(text), stopWords);
            forall k :: 0 <= k < |words| ==>
              IsToken(words[k]) && IsValidWord(words[k]) && words[k] !in stopWords
  {
    var tokens := Tokens(text);
    var words := NonStopWords(tokens, stopWords);
    NonStopWordsCounts(tokens, stopWords);
    TokensAreTokens(text);
    forall k | 0 <= k < |words|
      ensures IsToken(words[k]) && IsValidWord(words[k]) && words[k] !in stopWords
    {
      assert words[k] in words;
      var j :| 0 <= j < |tokens| && tokens[j] == words[k];
    }
  }

  /** A successful AddDocument keeps the class invariant. */
  lemma AddKeepsConsistent(ids: seq<int>, stopWords: set<string>, oldIndex: Index, index: Index,
                           documents: map<int, DocumentData>, documentWords: map<int, seq<string>>,
                           id: int, text: string, data: DocumentData)
    requires Consistent(ids, stopWords, oldIndex, documents, documentWords)
    requires id >= 0 && id !in documents
    requires AllValid(Tokens(text))
    requires IndexAdds(oldIndex, index, id, NonStopWords(Tokens(text), stopWords))
    ensures Consistent(ids + [id], stopWords, index, documents[id := data],
                       documentWords[id := NonStopWords(Tokens(text), stopWords)])
  {
    var words := NonStopWords(Tokens(text), stopWords);
    NonStopWordsWellFormed(text, stopWords);
    IndexAddsMatches(oldIndex, index, documentWords, id, words);
    assert id !in ids;
    var ids' := ids + [id];
    assert forall k :: 0 <= k < |ids| ==> ids'[k] == ids[k];
  }

  /** In a consistent server every document listed in the index is stored
      and every posting map is non-empty, so the IDF quotient is defined. */
  lemma ConsistentIndexUsable(index: Index, documents: map<int, DocumentData>,
                              documentWords: map<int, seq<string>>)
    requires IndexMatches(index, documentWords) && documentWords.Keys == documents.Keys
    ensures ListedStored(index, documents)
    ensures forall w :: w in index ==> |index[w]| > 0
  {
    forall w | w in index ensures |index[w]| > 0 {
      NonEmptyHasElement(index[w].Keys);
      var d :| d in index[w];
    }
  }

  /** The stop words of the demonstration in main hold a control
      character, so CreateFromText fails on them with InvalidStopWord. */
  lemma DemoStopWordsRejected()
    ensures !AllValid(Tokens("a and at in on wi\U{17}th"))
  {
    var text := "a and at in on wi\U{17}th";
    ValidTextIffValidTokens(text);
    assert IsControl(text[17]);
  }

  class SearchServer {
    var documentIds: seq<int>
    var stopWords: set<string>
    var wordToDocumentFreqs: Index
    var documents: map<int, DocumentData>
    /** The non-stop words of each stored document's text, in order. */
    ghost var documentWords: map<int, seq<string>>

    ghost predicate Valid()
      reads this
    {
      Consistent(documentIds, stopWords, wordToDocumentFreqs, documents, documentWords)
    }

    /** An empty server over stop words the caller has already validated. */
    constructor(stopWords: set<string>)
      requires ValidStopWords(stopWords)
      ensures Valid()
      ensures this.stopWords == stopWords
      ensures documentIds == [] && documents == map[] && wordToDocumentFreqs == map[] && documentWords == map[]
    {
      this.stopWords := stopWords;
      documentIds := [];
      documents := map[];
      wordToDocumentFreqs := map[];
      documentWords := map[];
    }

    /** The constructor from a container of stop words: keep the distinct
        non-empty ones, then fail if any of them holds a control character. */
    static method Create(stopWordList: seq<string>) returns (r: Result<SearchServer>)
      ensures r.Err? <==> exists w :: w in stopWordList && w != "" && !IsValidWord(w)
      ensures r.Err? ==> r.error == InvalidStopWord
      ensures r.Ok? ==>
                && fresh(r.value)
                && r.value.Valid()
                && (forall w :: w in r.value.stopWords <==> w in stopWordList && w != "")
                && r.value.documentIds == []
                && r.value.documents == map[]
                && r.value.wordToDocumentFreqs == map[]
    {
      var stop := MakeUniqueNonEmptyStrings(stopWordList);
      var rest := stop;
      while rest != {}
        invariant rest <= stop
        invariant forall w :: w in stop && w !in rest ==> IsValidWord(w)
        decreases rest
      {
        var w :| w in rest;
        if !IsValidWord(w) {
          return Err(InvalidStopWord);
        }
        rest := rest - {w};
      }
      var server := new SearchServer(stop);
      r := Ok(server);
    }

    /** The constructor from a text: its space-separated words are the stop words. */
    static method CreateFromText(stopWordsText: string) returns (r: Result<SearchServer>)
      ensures r.Err? <==> !AllValid(Tokens(stopWordsText))
      ensures r.Err? ==> r.error == InvalidStopWord
      ensures r.Ok? ==>
                && fresh(r.value)
                && r.value.Valid()
                && (forall w :: w in r.value.stopWords <==> w in Tokens(stopWordsText))
                && r.value.documentIds == []
                && r.value.documents == map[]
                && r.value.wordToDocumentFreqs == map[]
    {
      var words := SplitIntoWords(stopWordsText);
      r := Create(words);
      TokensAreTokens(stopWordsText);
      assert forall w :: w in words ==> w != "";
    }

    /** The words of a document text that get indexed, or an error at the
        first token holding a control character. */
    method SplitIntoWordsNoStop(text: string) returns (r: Result<seq<string>>)
      ensures AllValid(Tokens(text)) ==> r == Ok(NonStopWords(Tokens(text), stopWords))
      ensures !AllValid(Tokens(text)) ==> r == Err(InvalidDocumentWord)
    {
      var tokens := SplitIntoWords(text);
      var words := [];
      for i := 0 to |tokens|
        invariant AllValid(tokens[..i])
        invariant words == NonStopWords(tokens[..i], stopWords)
      {
        NonStopWordsStep(tokens, stopWords, i);
        assert tokens[..i + 1][..i] == tokens[..i];
        if !IsValidWord(tokens[i]) {
          assert !AllValid(tokens);
          return Err(InvalidDocumentWord);
        }
        if tokens[i] !in stopWords {
          words := words + [tokens[i]];
        }
      }
      assert tokens[..|tokens|] == tokens;
      r := Ok(words);
    }

    /** AddDocument: reject a negative id, then a duplicate id, then a text
        holding a control character, changing nothing; otherwise index the
        non-stop words, append the id and store the rating and status. */
    method AddDocument(documentId: int, document: string, status: DocumentStatus, ratings: seq<int>)
      returns (r: Result<bool>)
      requires Valid()
      modifies this
      ensures Valid()
      ensures stopWords == old(stopWords)
      ensures documentId < 0 ==> r == Err(NegativeDocumentId)
      ensures documentId >= 0 && documentId in old(documents) ==> r == Err(DuplicateDocumentId)
      ensures documentId >= 0 && documentId !in old(documents) && !IsValidWord(document) ==>
                r == Err(InvalidDocumentWord)
      ensures documentId >= 0 && documentId !in old(documents) && IsValidWord(document) ==> r == Ok(true)
      ensures r.Err? ==>
                && documentIds == old(documentIds)
                && documents == old(documents)
                && wordToDocumentFreqs == old(wordToDocumentFreqs)
                && documentWords == old(documentWords)
      ensures r.Ok? ==>
                var words := NonStopWords(Tokens(document), stopWords);
                && documentIds == old(documentIds) + [documentId]
                && |documents| == |old(documents)| + 1
                && documents == old(documents)[documentId := DocumentData(AverageRating(ratings), status)]
                && documentWords == old(documentWords)[documentId := words]
                && IndexAdds(old(wordToDocumentFreqs), wordToDocumentFreqs, documentId, words)
    {
      if documentId < 0 {
        return Err(NegativeDocumentId);
      }
      if documentId in documents {
        return Err(DuplicateDocumentId);
      }
      ValidTextIffValidTokens(document);
      var split := SplitIntoWordsNoStop(document);
      if split.Err? {
        return Err(InvalidDocumentWord);
      }
      var words := split.value;
      var invWordCount := if |words| > 0 then 1.0 / |words| as real else 0.0;
      PartialAddStart(wordToDocumentFreqs, documentWords, documentId, invWordCount);
      var index := IndexWords(wordToDocumentFreqs, documentId, words, invWordCount);
      PartialAddComplete(wordToDocumentFreqs, index, documentId, words, invWordCount);
      var rating := ComputeAverageRating(ratings);
      AddKeepsConsistent(documentIds, stopWords, wordToDocumentFreqs, index, documents, documentWords,
                         documentId, document, DocumentData(rating, status));
      wordToDocumentFreqs := index;
      documentIds := documentIds + [documentId];
      documents := documents[documentId := DocumentData(rating, status)];
      documentWords := documentWords[documentId := words];
      r := Ok(true);
    }

    /** ParseQuery: parse the tokens from left to right into the plus- and
        minus-word sets, failing at the first malformed token. */
    method ParseQuery(text: string) returns (r: Result<Query>)
      ensures r == ParsedQuery(stopWords, text)
    {
      var tokens := SplitIntoWords(text);
      var query := Query([], []);
      assert tokens[..0] == [];
      for i := 0 to |tokens|
        invariant ParseTokens(stopWords, tokens[..i]) == Ok(query)
      {
        assert tokens[..i + 1][..i] == tokens[..i];
        var queryWord := ParseQueryWord(stopWords, tokens[i]);
        if queryWord.Err? {
          ParseTokensErrorSticks(stopWords, tokens, i + 1);
          return Err(queryWord.error);
        }
        query := AddQueryWord(query, queryWord.value);
      }
      assert tokens[..|tokens|] == tokens;
      r := Ok(query);
    }

    /** MatchDocument: the plus-words of the query the document contains,
        or none if it contains a minus-word, with the document's status. A
        malformed query fails first, then an unknown id. */
    method MatchDocument(rawQuery: string, documentId: int) returns (r: Result<(seq<string>, DocumentStatus)>)
      requires Valid()
      ensures ParsedQuery(stopWords, rawQuery).Err? ==> r == Err(ParsedQuery(stopWords, rawQuery).error)
      ensures ParsedQuery(stopWords, rawQuery).Ok? && documentId !in documents ==> r == Err(UnknownDocumentId)
      ensures ParsedQuery(stopWords, rawQuery).Ok? && documentId in documents ==>
                && r.Ok?
                && r.value.1 == documents[documentId].status
                && IsMatchResult(ParsedQuery(stopWords, rawQuery).value, documentWords[documentId], r.value.0)
    {
      var parsed := ParseQuery(rawQuery);
      if parsed.Err? {
        return Err(parsed.error);
      }
      var query := parsed.value;
      ParsedQueryWellFormed(stopWords, rawQuery);
      var plus, minus := query.plusWords, query.minusWords;
      var index := wordToDocumentFreqs;
      var matchedWords: seq<string> := [];
      for i := 0 to |plus|
        invariant PlusMatched(index, plus, documentId, i, matchedWords)
      {
        var next := matchedWords;
        if plus[i] in index && documentId in index[plus[i]] {
          next := matchedWords + [plus[i]];
        }
        PlusMatchStep(index, plus, documentId, i, matchedWords, next);
        matchedWords := next;
      }
      assert plus[..|plus|] == plus;
      for i := 0 to |minus|
        invariant !Posted(index, minus[..i], documentId)
      {
        PostedStep(index, minus, i, documentId);
        if minus[i] in index && documentId in index[minus[i]] {
          assert Posted(index, minus, documentId) by {
            assert minus[i] in minus;
          }
          matchedWords := [];
          break;
        }
      }
      assert minus[..|minus|] == minus;
      if documentId !in documents {
        return Err(UnknownDocumentId);
      }
      PostedIffOccurs(index, documentWords, minus, documentId);
      r := Ok((matchedWords, documents[documentId].status));
    }

    /** FindAllDocuments: accumulate TF-IDF over the plus-words for the
        documents the predicate accepts, drop those holding a minus-word,
        and list the rest by increasing id. */
    method FindAllDocuments(query: Query, pred: DocumentPredicate, ln: real -> real)
      returns (matched: seq<Document>)
      requires Valid()
      ensures IsAllDocuments(wordToDocumentFreqs, documents, query, pred, ln, matched)
    {
      ConsistentIndexUsable(wordToDocumentFreqs, documents, documentWords);
      matched := MatchAll(wordToDocumentFreqs, documents, query, pred, ln);
    }

    /** FindTopDocuments: parse the query (a malformed one is an error),
        find all matching documents, sort them by rank and keep the first
        five. ln is the natural logarithm used for the IDF. */
    method FindTopDocuments(rawQuery: string, pred: DocumentPredicate, ln: real -> real)
      returns (r: Result<seq<Document>>)
      requires Valid()
      ensures ParsedQuery(stopWords, rawQuery).Err? ==> r == Err(ParsedQuery(stopWords, rawQuery).error)
      ensures ParsedQuery(stopWords, rawQuery).Ok? ==>
                r.Ok? && IsTopDocuments(wordToDocumentFreqs, documents, ParsedQuery(stopWords, rawQuery).value,
                                        pred, ln, r.value)
    {
      var parsed := ParseQuery(rawQuery);
      if parsed.Err? {
        return Err(parsed.error);
      }
      var matched := FindAllDocuments(parsed.value, pred, ln);
      var a := new Document[|matched|](k requires 0 <= k < |matched| => matched[k]);
      assert a[..] == matched;
      SortByRank(a);
      var n := if a.Length > MaxResultDocumentCount then MaxResultDocumentCount else a.Length;
      TopOfRanked(wordToDocumentFreqs, documents, parsed.value, pred, ln, matched, a[..], n);
      r := Ok(a[..n]);
    }

    /** FindTopDocuments with a status: the documents with exactly that status. */
    method FindTopDocumentsByStatus(rawQuery: string, status: DocumentStatus, ln: real -> real)
      returns (r: Result<seq<Document>>)
      requires Valid()
      ensures ParsedQuery(stopWords, rawQuery).Err? ==> r == Err(ParsedQuery(stopWords, rawQuery).error)
      ensures ParsedQuery(stopWords, rawQuery).Ok? ==>
                r.Ok? && IsTopDocuments(wordToDocumentFreqs, documents, ParsedQuery(stopWords, rawQuery).value,
                                        StatusIs(status), ln, r.value)
    {
      r := FindTopDocuments(rawQuery, StatusIs(status), ln);
    }

    /** FindTopDocuments without a filter: the ACTUAL documents. */
    method FindTopDocumentsActual(rawQuery: string, ln: real -> real)
      returns (r: Result<seq<Document>>)
      requires Valid()
      ensures ParsedQuery(stopWords, rawQuery).Err? ==> r == Err(ParsedQuery(stopWords, rawQuery).error)
      ensures ParsedQuery(stopWords, rawQuery).Ok? ==>
                r.Ok? && IsTopDocuments(wordToDocumentFreqs, documents, ParsedQuery(stopWords, rawQuery).value,
                                        StatusIs(Actual), ln, r.value)
    {
      r := FindTopDocumentsByStatus(rawQuery, Actual, ln);
    }

    /** GetDocumentCount: the number of stored documents, which is the
        length of the id list. */
    method GetDocumentCount() returns (n: nat)
      requires Valid()
      ensures n == |documentIds| == |documents|
    {
      n := |documents|;
    }

    /** GetDocumentId: the index-th id in insertion order; an index outside
        [0, count) is an error. */
    method GetDocumentId(index: int) returns (r: Result<int>)
      ensures 0 <= index < |documentIds| ==> r == Ok(documentIds[index])
      ensures !(0 <= index < |documentIds|) ==> r == Err(DocumentIndexOutOfRange)
    {
      if 0 <= index < |documentIds| {
        r := Ok(documentIds[index]);
      } else {
        r := Err(DocumentIndexOutOfRange);
      }
    }
  }
}
