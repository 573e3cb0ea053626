/** The order FindTopDocuments sorts matched documents in: by relevance,
    highest first; documents whose relevances compare equal by rating,
    highest first. */
module Ranking {
  import opened Documents

  /** a comes strictly before b in the ranking: by relevance when the
      relevances differ, by rating when they are equal. */
  predicate Outranks(a: Document, b: Document): (r: bool)
    ensures a.relevance != b.relevance ==> (r <==> a.relevance > b.relevance)
    ensures a.relevance == b.relevance ==> (r <==> a.rating > b.rating)
  {
    a.relevance > b.relevance || (a.relevance == b.relevance && a.rating > b.rating)
  }

  /** Outranks is a strict order ... */
  lemma OutranksAsymmetric(a: Document, b: Document)
    ensures Outranks(a, b) ==> !Outranks(b, a)
  {
  }

  /** ... and "does not outrank" is transitive, so the ranking is a total
      preorder: documents that tie on both keys may come in any order. */
  lemma NotOutranksTransitive(a: Document, b: Document, c: Document)
    requires !Outranks(a, b) && !Outranks(b, c)
    ensures !Outranks(a, c)
  {
  }

  /** No document is outranked by one that comes after it. */
  predicate SortedByRank(s: seq<Document>) {
    forall i, j :: 0 <= i < j < |s| ==> !Outranks(s[j], s[i])
  }

  /** The elements of a[..i + 1], sorted except for the one at j, which
      outranks everything after it. */
  ghost predicate InsertionState(s: seq<Document>, i: int, j: int)
    requires 0 <= j <= i < |s|
  {
    && (forall p, q :: 0 <= p < q <= i && p != j && q != j ==> !Outranks(s[q], s[p]))
    && (forall q :: j < q <= i ==> Outranks(s[j], s[q]))
  }

  /** Finishes the insertion of s[j]: once it does not outrank its left
      neighbour, the whole prefix s[..i + 1] is sorted. */
  lemma InsertionDone(s: seq<Document>, i: int, j: int)
    requires 0 <= j <= i < |s|
    requires InsertionState(s, i, j)
    requires j == 0 || !Outranks(s[j], s[j - 1])
    ensures SortedByRank(s[..i + 1])
  {
    forall p, q | 0 <= p < q <= i ensures !Outranks(s[q], s[p]) {
      if q == j && p < j - 1 {
        NotOutranksTransitive(s[j], s[j - 1], s[p]);
      } else if p == j {
        OutranksAsymmetric(s[j], s[q]);
      }
    }
  }

  /** Swapping s[j] with its left neighbour, which it outranks, moves the
      insertion point one step to the left. */
  lemma InsertionSwap(s: seq<Document>, t: seq<Document>, i: int, j: int)
    requires 0 < j <= i < |s| == |t|
    requires InsertionState(s, i, j)
    requires Outranks(s[j], s[j - 1])
    requires t == s[j - 1 := s[j]][j := s[j - 1]]
    ensures InsertionState(t, i, j - 1)
  {
  }

  /** Insertion sort: sorts the array in place by rank, keeping its elements. */
  method SortByRank(a: array<Document>)
    modifies a
    ensures SortedByRank(a[..])
    ensures multiset(a[..]) == multiset(old(a[..]))
  {
    var i := 0;
    while i < a.Length
      invariant 0 <= i <= a.Length
      invariant SortedByRank(a[..i])
      invariant multiset(a[..]) == multiset(old(a[..]))
    {
      var j := i;
      while j > 0 && Outranks(a[j], a[j - 1])
        invariant 0 <= j <= i
        invariant InsertionState(a[..], i, j)
        invariant multiset(a[..]) == multiset(old(a[..]))
      {
        ghost var s := a[..];
        a[j - 1], a[j] := a[j], a[j - 1];
        InsertionSwap(s, a[..], i, j);
        j := j - 1;
      }
      InsertionDone(a[..], i, j);
      assert a[..][..i + 1] == a[..i + 1];
      i := i + 1;
    }
    assert a[..a.Length] == a[..];
  }
}
