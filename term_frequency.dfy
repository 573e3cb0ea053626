/** Term frequencies: the words of a document that get indexed
    (SplitIntoWordsNoStop) and the fraction of them each word accounts for. */
module TermFrequency {

  /** The tokens that are not stop words, in their original order
      (SplitIntoWordsNoStop); NonStopWordsCounts states what it keeps. */
  function NonStopWords(tokens: seq<string>, stopWords: set<string>): seq<string> {
    if tokens == [] then []
    else
      var n := |tokens| - 1;
      var init := NonStopWords(tokens[..n], stopWords);
      if tokens[n] in stopWords then init else init + [tokens[n]]
  }

  /** Every non-stop word keeps its number of occurrences; stop words are gone. */
  lemma {:induction false} NonStopWordsCounts(tokens: seq<string>, stopWords: set<string>)
    ensures forall w :: multiset(NonStopWords(tokens, stopWords))[w] ==
                          if w in stopWords then 0 else multiset(tokens)[w]
    ensures forall w :: w in NonStopWords(tokens, stopWords) <==> w in tokens && w !in stopWords
  {
    if tokens != [] {
      var n := |tokens| - 1;
      NonStopWordsCounts(tokens[..n], stopWords);
      assert tokens == tokens[..n] + [tokens[n]];
      assert multiset(tokens) == multiset(tokens[..n]) + multiset{tokens[n]};
    }
  }

  lemma NonStopWordsStep(tokens: seq<string>, stopWords: set<string>, i: nat)
    requires i < |tokens|
    ensures NonStopWords(tokens[..i + 1], stopWords) ==
              if tokens[i] in stopWords then NonStopWords(tokens[..i], stopWords)
              else NonStopWords(tokens[..i], stopWords) + [tokens[i]]
  {
    assert tokens[..i + 1][..i] == tokens[..i];
  }

  /** Term frequency of w in a document with the given (non-stop) words:
      occurrences of w divided by the number of words. */
  function Tf(words: seq<string>, w: string): real
    requires words != []
  {
    multiset(words)[w] as real / |words| as real
  }

  /** The distinct words of the sequence, each once, in order of first
      occurrence. */
  function Distinct(ws: seq<string>): (ds: seq<string>)
    ensures forall x :: multiset(ds)[x] == if x in ws then 1 else 0
  {
    if ws == [] then []
    else
      var n := |ws| - 1;
      var init := Distinct(ws[..n]);
      assert ws == ws[..n] + [ws[n]];
      if ws[n] in ws[..n] then init else init + [ws[n]]
  }

  /** Sum of the occurrence counts in `words` of the words listed in `ds`. */
  function CountSum(words: seq<string>, ds: seq<string>): int {
    if ds == [] then 0 else CountSum(words, ds[..|ds| - 1]) + multiset(words)[ds[|ds| - 1]]
  }

  /** Sum of the term frequencies in `words` of the words listed in `ds`. */
  function TfSum(words: seq<string>, ds: seq<string>): real
    requires words != []
  {
    if ds == [] then 0.0 else TfSum(words, ds[..|ds| - 1]) + Tf(words, ds[|ds| - 1])
  }

  lemma {:induction false} CountSumAppend(words: seq<string>, x: string, ds: seq<string>)
    ensures CountSum(words + [x], ds) == CountSum(words, ds) + multiset(ds)[x]
  {
    if ds != [] {
      var n := |ds| - 1;
      CountSumAppend(words, x, ds[..n]);
      assert ds == ds[..n] + [ds[n]];
    }
  }

  lemma {:induction false} CountSumOfDistinct(words: seq<string>)
    ensures CountSum(words, Distinct(words)) == |words|
  {
    if words != [] {
      var n := |words| - 1;
      var init, x := words[..n], words[n];
      assert words == init + [x];
      CountSumOfDistinct(init);
      CountSumAppend(init, x, Distinct(init));
      if x !in init {
        assert Distinct(words) == Distinct(init) + [x];
        assert (Distinct(init) + [x])[..|Distinct(init)|] == Distinct(init);
      }
    }
  }

  lemma {:induction false} TfSumIsCountSum(words: seq<string>, ds: seq<string>)
    requires words != []
    ensures TfSum(words, ds) * |words| as real == CountSum(words, ds) as real
  {
    if ds != [] {
      var init, x := ds[..|ds| - 1], ds[|ds| - 1];
      var n, c := |words| as real, multiset(words)[x] as real;
      TfSumIsCountSum(words, init);
      var a, t := TfSum(words, init), Tf(words, x);
      QuotientTimesDivisor(c, n);
      assert t * n == c;
      SumTimes(a, t, n);
      assert TfSum(words, ds) == a + t;
      assert TfSum(words, ds) * n == a * n + t * n;
    }
  }

  lemma QuotientTimesDivisor(c: real, n: real)
    requires n > 0.0
    ensures (c / n) * n == c
  {
  }

  lemma SumTimes(a: real, b: real, n: real)
    ensures (a + b) * n == a * n + b * n
  {
  }

  lemma TfSumOfFullCount(words: seq<string>, ds: seq<string>)
    requires words != [] && CountSum(words, ds) == |words|
    ensures TfSum(words, ds) == 1.0
  {
    TfSumIsCountSum(words, ds);
    CancelFactor(TfSum(words, ds), CountSum(words, ds), |words|);
  }

  lemma CancelFactor(t: real, c: int, n: int)
    requires n > 0 && c == n && t * n as real == c as real
    ensures t == 1.0
  {
    var nr := n as real;
    if t < 1.0 {
      PositiveProduct(1.0 - t, nr);
    } else if t > 1.0 {
      PositiveProduct(t - 1.0, nr);
    }
  }

  lemma PositiveProduct(x: real, y: real)
    requires x > 0.0 && y > 0.0
    ensures x * y > 0.0
  {
  }

  /** The term frequencies of a document's distinct words add up to one. */
  lemma TfSumsToOne(words: seq<string>)
    requires words != []
    ensures TfSum(words, Distinct(words)) == 1.0
  {
    CountSumOfDistinct(words);
    TfSumOfFullCount(words, Distinct(words));
  }
}
