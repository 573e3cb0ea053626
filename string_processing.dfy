/** Tokenizer and word validation: SplitIntoWords, IsValidWord and
    MakeUniqueNonEmptyStrings of the search server. */
module StringProcessing {

  /** A control character: code point in [0, 0x20), i.e. below the space. */
  predicate IsControl(c: char) {
    c < ' '
  }

  /** IsValidWord: the word holds no character in the range ['\0', ' ').
      With ValidSplit, the two ensures below fix the predicate on every word. */
  predicate IsValidWord(word: string): (b: bool)
    ensures word == "" ==> b
    ensures |word| == 1 ==> (b <==> !('\0' <= word[0] < ' '))
  {
    forall i :: 0 <= i < |word| ==> !IsControl(word[i])
  }

  predicate HasNoSpace(w: string) {
    forall i :: 0 <= i < |w| ==> w[i] != ' '
  }

  /** A word as the tokenizer produces it: non-empty and free of spaces. */
  predicate IsToken(w: string) {
    w != [] && HasNoSpace(w)
  }

  /** Length of the leading run of non-space characters of `s`. */
  function RunLength(s: string): (n: nat)
    ensures n <= |s|
    ensures forall i :: 0 <= i < n ==> s[i] != ' '
    ensures n < |s| ==> s[n] == ' '
  {
    if s == [] || s[0] == ' ' then 0 else 1 + RunLength(s[1..])
  }

  /** Reference definition of the tokenizer: the maximal runs of non-space
      characters of `text`, from left to right. */
  function Tokens(text: string): seq<string>
    decreases |text|
  {
    if text == [] then []
    else if text[0] == ' ' then Tokens(text[1..])
    else
      var n := RunLength(text);
      [text[..n]] + Tokens(text[n..])
  }

  /** Every token is non-empty and free of spaces. */
  lemma {:induction false} TokensAreTokens(text: string)
    ensures forall k :: 0 <= k < |Tokens(text)| ==> IsToken(Tokens(text)[k])
    decreases |text|
  {
    if text != [] {
      if text[0] == ' ' {
        TokensAreTokens(text[1..]);
      } else {
        var n := RunLength(text);
        TokensAreTokens(text[n..]);
        var ws := Tokens(text);
        assert ws == [text[..n]] + Tokens(text[n..]);
        forall k | 0 <= k < |ws| ensures IsToken(ws[k]) {
          if k > 0 {
            assert ws[k] == Tokens(text[n..])[k - 1];
          }
        }
      }
    }
  }

  lemma {:induction false} RunLengthOfWord(w: string, rest: string)
    requires HasNoSpace(w)
    requires rest == [] || rest[0] == ' '
    ensures RunLength(w + rest) == |w|
  {
    if w != [] {
      assert (w + rest)[1..] == w[1..] + rest;
      RunLengthOfWord(w[1..], rest);
    }
  }

  /** A token followed by the end of the text or by a space is emitted whole. */
  lemma TokensOfWord(w: string, rest: string)
    requires IsToken(w)
    requires rest == [] || rest[0] == ' '
    ensures Tokens(w + rest) == [w] + Tokens(rest)
  {
    RunLengthOfWord(w, rest);
    assert (w + rest)[..|w|] == w;
    assert (w + rest)[|w|..] == rest;
  }

  /** A character other than a space extends the pending word. */
  lemma ScanChar(all: seq<string>, text: string, i: nat, words: seq<string>, word: string)
    requires i < |text| && text[i] != ' ' && HasNoSpace(word)
    requires all == words + Tokens(word + text[i..])
    ensures HasNoSpace(word + [text[i]])
    ensures all == words + Tokens((word + [text[i]]) + text[i + 1..])
  {
    assert text[i..] == [text[i]] + text[i + 1..];
    assert word + text[i..] == (word + [text[i]]) + text[i + 1..];
  }

  /** At a space the pending word (if any) is emitted and the space dropped. */
  lemma ScanSpace(all: seq<string>, text: string, i: nat, words: seq<string>, word: string,
                  words': seq<string>, word': string)
    requires i < |text| && text[i] == ' ' && HasNoSpace(word)
    requires all == words + Tokens(word + text[i..])
    requires words' == (if word == "" then words else words + [word]) && word' == ""
    ensures all == words' + Tokens(word' + text[i + 1..])
  {
    assert word' + text[i + 1..] == text[i + 1..];
    TokensAtSpace(text, i, word);
  }

  /** The token sequence from a space on is that of the text after it,
      after the pending word if there is one. */
  lemma TokensAtSpace(text: string, i: nat, word: string)
    requires i < |text| && text[i] == ' ' && HasNoSpace(word)
    ensures Tokens(word + text[i..]) == (if word == "" then [] else [word]) + Tokens(text[i + 1..])
  {
    var rest := text[i..];
    assert rest[1..] == text[i + 1..];
    if word == "" {
      assert word + rest == rest;
    } else {
      TokensOfWord(word, rest);
    }
  }

  /** SplitIntoWords: scan the text once, collecting the current word and
      emitting it at every space and at the end. */
  method SplitIntoWords(text: string) returns (words: seq<string>)
    ensures words == Tokens(text)
  {
    ghost var all := Tokens(text);
    words := [];
    var word := "";
    assert word + text[0..] == text;
    for i := 0 to |text|
      invariant HasNoSpace(word)
      invariant all == words + Tokens(word + text[i..])
    {
      if text[i] != ' ' {
        ScanChar(all, text, i, words, word);
        word := word + [text[i]];
      } else {
        var words' := if word == "" then words else words + [word];
        ScanSpace(all, text, i, words, word, words', "");
        words, word := words', "";
      }
    }
    TokensAtEnd(text, word);
    if word != "" {
      words := words + [word];
    }
  }

  /** At the end of the text the pending word (if any) is emitted. */
  lemma TokensAtEnd(text: string, word: string)
    requires HasNoSpace(word)
    ensures Tokens(word + text[|text|..]) == if word == "" then [] else [word]
  {
    assert word + text[|text|..] == word + [];
    if word != "" {
      TokensOfWord(word, []);
    }
  }

  /** Words separated by single spaces. */
  function Join(ws: seq<string>): string {
    if |ws| == 0 then "" else if |ws| == 1 then ws[0] else ws[0] + " " + Join(ws[1..])
  }

  /** Round trip: tokenizing words joined by spaces gives the words back, so
      the tokens are exactly the maximal space-free runs. */
  lemma {:induction false} TokensOfJoin(ws: seq<string>)
    requires forall k :: 0 <= k < |ws| ==> IsToken(ws[k])
    ensures Tokens(Join(ws)) == ws
  {
    if |ws| == 1 {
      TokensOfWord(ws[0], []);
      assert ws[0] + [] == ws[0];
    } else if |ws| > 1 {
      var rest := " " + Join(ws[1..]);
      assert Join(ws) == ws[0] + rest;
      TokensOfWord(ws[0], rest);
      assert rest[1..] == Join(ws[1..]);
      TokensOfJoin(ws[1..]);
    }
  }

  function Concat(ws: seq<string>): string {
    if ws == [] then "" else ws[0] + Concat(ws[1..])
  }

  /** The text with every space deleted. */
  function RemoveSpaces(s: string): string {
    if s == [] then "" else (if s[0] == ' ' then "" else [s[0]]) + RemoveSpaces(s[1..])
  }

  lemma {:induction false} RemoveSpacesOfWord(w: string)
    requires HasNoSpace(w)
    ensures RemoveSpaces(w) == w
  {
    if w != [] {
      RemoveSpacesOfWord(w[1..]);
    }
  }

  lemma {:induction false} RemoveSpacesAppend(a: string, b: string)
    ensures RemoveSpaces(a + b) == RemoveSpaces(a) + RemoveSpaces(b)
  {
    if a != [] {
      assert (a + b)[1..] == a[1..] + b;
      RemoveSpacesAppend(a[1..], b);
    } else {
      assert a + b == b;
    }
  }

  /** Only spaces separate tokens: the tokens, concatenated, are the text
      with its spaces deleted. */
  lemma {:induction false} TokensKeepNonSpaces(text: string)
    ensures Concat(Tokens(text)) == RemoveSpaces(text)
    decreases |text|
  {
    if text == [] {
    } else if text[0] == ' ' {
      TokensKeepNonSpaces(text[1..]);
    } else {
      var n := RunLength(text);
      TokensKeepNonSpaces(text[n..]);
      assert text == text[..n] + text[n..];
      RemoveSpacesAppend(text[..n], text[n..]);
      RemoveSpacesOfWord(text[..n]);
      assert ([text[..n]] + Tokens(text[n..]))[1..] == Tokens(text[n..]);
    }
  }

  /** Every word of the sequence is valid. */
  predicate AllValid(ws: seq<string>) {
    forall k :: 0 <= k < |ws| ==> IsValidWord(ws[k])
  }

  /** Validating the whole text (main.cpp) and validating every token
      (search_server.cpp) accept the same texts, since a space is not a
      control character. */
  lemma {:induction false} ValidTextIffValidTokens(text: string)
    ensures IsValidWord(text) <==> AllValid(Tokens(text))
    decreases |text|
  {
    if text == [] {
    } else if text[0] == ' ' {
      ValidTextIffValidTokens(text[1..]);
      ValidSplit(text, 1);
      assert !IsControl(text[0]);
    } else {
      var n := RunLength(text);
      ValidTextIffValidTokens(text[n..]);
      ValidSplit(text, n);
      AllValidCons(text[..n], Tokens(text[n..]));
    }
  }

  /** A text is valid exactly when both halves of any split of it are. */
  lemma ValidSplit(text: string, n: nat)
    requires n <= |text|
    ensures IsValidWord(text) <==> IsValidWord(text[..n]) && IsValidWord(text[n..])
  {
    assert forall i :: 0 <= i < n ==> text[i] == text[..n][i];
    assert forall i :: n <= i < |text| ==> text[i] == text[n..][i - n];
  }

  lemma AllValidCons(w: string, rest: seq<string>)
    ensures AllValid([w] + rest) <==> IsValidWord(w) && AllValid(rest)
  {
    var ts := [w] + rest;
    assert ts[0] == w;
    assert forall k :: 0 <= k < |rest| ==> ts[k + 1] == rest[k];
  }


  /** MakeUniqueNonEmptyStrings: the set of the distinct non-empty strings. */
  method MakeUniqueNonEmptyStrings(strings: seq<string>) returns (r: set<string>)
    ensures forall s :: s in r <==> s in strings && s != ""
  {
    r := {};
    for i := 0 to |strings|
      invariant forall s :: s in r <==> s in strings[..i] && s != ""
    {
      assert strings[..i + 1] == strings[..i] + [strings[i]];
      if strings[i] != "" {
        r := r + {strings[i]};
      }
    }
    assert strings[..|strings|] == strings;
  }
}
