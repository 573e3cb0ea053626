/** The ordering std::set<std::string> keeps its elements in: lexicographic
    comparison of characters by code point (std::char_traits<char> compares
    as unsigned char). A std::set<string> is modelled as the strictly
    increasing sequence of its elements, which is the order it iterates in. */
module StringOrder {

  /** a < b in lexicographic order: a is a proper prefix of b, or the first
      differing character of a is smaller. */
  predicate Less(a: string, b: string) {
    if a == [] then b != []
    else if b == [] then false
    else if a[0] != b[0] then a[0] < b[0]
    else Less(a[1..], b[1..])
  }

  lemma {:induction false} LessIrreflexive(a: string)
    ensures !Less(a, a)
  {
    if a != [] {
      LessIrreflexive(a[1..]);
    }
  }

  lemma {:induction false} LessAsymmetric(a: string, b: string)
    ensures Less(a, b) ==> !Less(b, a)
  {
    if a != [] && b != [] && a[0] == b[0] {
      LessAsymmetric(a[1..], b[1..]);
    }
  }

  lemma {:induction false} LessTransitive(a: string, b: string, c: string)
    requires Less(a, b) && Less(b, c)
    ensures Less(a, c)
  {
    if a != [] && a[0] == b[0] && b[0] == c[0] {
      LessTransitive(a[1..], b[1..], c[1..]);
    }
  }

  lemma {:induction false} LessTotal(a: string, b: string)
    ensures a == b || Less(a, b) || Less(b, a)
  {
    if a != [] && b != [] && a[0] == b[0] {
      LessTotal(a[1..], b[1..]);
      if a[1..] == b[1..] {
        assert a == [a[0]] + a[1..] && b == [b[0]] + b[1..];
      }
    }
  }

  /** The sequence lists a set's elements in increasing order, each once. */
  predicate StrictlySorted(s: seq<string>) {
    forall i, j :: 0 <= i < j < |s| ==> Less(s[i], s[j])
  }

  /** std::set<string>::insert on the sorted model: add w unless present,
      keeping the order. */
  function Insert(s: seq<string>, w: string): (r: seq<string>)
    ensures forall x :: x in r <==> x in s || x == w
  {
    if s == [] then [w]
    else if s[0] == w then s
    else if Less(w, s[0]) then [w] + s
    else [s[0]] + Insert(s[1..], w)
  }

  lemma {:induction false} InsertSorted(s: seq<string>, w: string)
    requires StrictlySorted(s)
    ensures StrictlySorted(Insert(s, w))
  {
    if s == [] || s[0] == w {
    } else if Less(w, s[0]) {
      forall k | 0 < k < |s| ensures Less(w, s[k]) {
        LessTransitive(w, s[0], s[k]);
      }
      var r := [w] + s;
      assert forall i, j :: 0 < i < j < |r| ==> r[i] == s[i - 1] && r[j] == s[j - 1];
    } else {
      LessTotal(w, s[0]);
      InsertSorted(s[1..], w);
      var tail := Insert(s[1..], w);
      assert forall x :: x in tail ==> Less(s[0], x);
      var r := [s[0]] + tail;
      assert forall j :: 0 < j < |r| ==> r[j] == tail[j - 1];
      assert forall j :: 0 < j < |r| ==> r[j] in tail;
    }
  }

  /** Two strictly sorted sequences with the same elements are equal: the
      sorted model of a set is unique. */
  lemma {:induction false} SortedUnique(s: seq<string>, t: seq<string>)
    requires StrictlySorted(s) && StrictlySorted(t)
    requires forall x :: x in s <==> x in t
    ensures s == t
  {
    assert s != [] ==> s[0] in t;
    assert t != [] ==> t[0] in s;
    if s != [] && t != [] {
      assert s[0] in t;
      assert t[0] in s;
      if s[0] != t[0] {
        var i :| 0 <= i < |t| && t[i] == s[0];
        var j :| 0 <= j < |s| && s[j] == t[0];
        assert Less(t[0], s[0]) by { assert i > 0; }
        assert Less(s[0], t[0]) by { assert j > 0; }
        LessAsymmetric(s[0], t[0]);
      }
      assert s[0] == t[0];
      forall x ensures x in s[1..] <==> x in t[1..] {
        if x in s[1..] {
          var i :| 1 <= i < |s| && s[i] == x;
          LessIrreflexive(s[0]);
          assert x != s[0];
          assert x in s;
          var j :| 0 <= j < |t| && t[j] == x;
          assert j != 0;
          assert t[1..][j - 1] == x;
        }
        if x in t[1..] {
          var i :| 1 <= i < |t| && t[i] == x;
          LessIrreflexive(t[0]);
          assert x != t[0];
          assert x in t;
          var j :| 0 <= j < |s| && s[j] == x;
          assert j != 0;
          assert s[1..][j - 1] == x;
        }
      }
      SortedUnique(s[1..], t[1..]);
      assert s == [s[0]] + s[1..] && t == [t[0]] + t[1..];
    }
  }
}
