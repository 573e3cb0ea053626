/** The query language: ParseQueryWord (one token) and ParseQuery (a whole
    query text) of the search server. A token is a plus-word, or, with one
    leading '-', a minus-word; stop words are dropped from both sets. */
module QueryParsing {
  import opened Documents
  import opened StringProcessing
  import opened StringOrder

  /** A parsed token: the word, whether it was prefixed with '-', and whether it is a stop word. */
  datatype QueryWord = QueryWord(data: string, isMinus: bool, isStop: bool)

  /** The plus- and minus-words of a query, each a std::set<string>, modelled
      as strictly increasing sequences (see StringOrder). */
  datatype Query = Query(plusWords: seq<string>, minusWords: seq<string>)

  /** ParseQueryWord. The checks run in the source's order: empty token,
      trailing '-', control character (after stripping one leading '-'),
      second leading '-'. What it accepts and rejects is stated by
      ParseQueryWordChecks. */
  function ParseQueryWord(stopWords: set<string>, text: string): (r: Result<QueryWord>)
    ensures r.Ok? ==> r.value.data != "" && r.value.data[0] != '-'
    ensures r.Ok? ==> r.value.isStop == (r.value.data in stopWords)
  {
    if text == "" then Err(EmptyQueryWord)
    else if text[|text| - 1] == '-' then Err(EmptyMinusWord)
    else
      var isMinus := text[0] == '-';
      var word := if isMinus then text[1..] else text;
      if !IsValidWord(word) then Err(InvalidQueryWord)
      else if word[0] == '-' then Err(DoubleMinusWord)
      else Ok(QueryWord(word, isMinus, word in stopWords))
  }

  /** Which tokens ParseQueryWord rejects, with which error, and what it
      returns otherwise: the token is the word, prefixed with '-' for a
      minus-word, and the word is never empty and never starts with '-'. */
  lemma ParseQueryWordChecks(stopWords: set<string>, text: string)
    ensures text == "" ==> ParseQueryWord(stopWords, text) == Err(EmptyQueryWord)
    ensures text != "" && text[|text| - 1] == '-' ==>
              ParseQueryWord(stopWords, text) == Err(EmptyMinusWord)
    ensures ParseQueryWord(stopWords, text) == Err(InvalidQueryWord) <==>
              text != "" && text[|text| - 1] != '-' && !IsValidWord(text)
    ensures ParseQueryWord(stopWords, text) == Err(DoubleMinusWord) <==>
              text != "" && text[|text| - 1] != '-' && IsValidWord(text) &&
              |text| >= 2 && text[0] == '-' && text[1] == '-'
    ensures ParseQueryWord(stopWords, text).Ok? <==>
              text != "" && text[|text| - 1] != '-' && IsValidWord(text) &&
              !(|text| >= 2 && text[0] == '-' && text[1] == '-')
    ensures ParseQueryWord(stopWords, text).Ok? ==>
              var w := ParseQueryWord(stopWords, text).value;
              && w.data != ""
              && w.data[0] != '-'
              && IsValidWord(w.data)
              && w.isStop == (w.data in stopWords)
              && text == (if w.isMinus then "-" else "") + w.data
  {
    if text != "" && text[0] == '-' && text[|text| - 1] != '-' {
      assert forall i :: 1 <= i < |text| ==> text[i] == text[1..][i - 1];
      assert IsValidWord(text[1..]) <==> IsValidWord(text);
    }
  }

  /** Query::plus_words.insert / minus_words.insert for one parsed token;
      a stop word changes nothing. */
  function AddQueryWord(q: Query, w: QueryWord): Query {
    if w.isStop then q
    else if w.isMinus then q.(minusWords := Insert(q.minusWords, w.data))
    else q.(plusWords := Insert(q.plusWords, w.data))
  }

  /** The query built from the tokens from left to right, or the error of the
      first token that does not parse. */
  function ParseTokens(stopWords: set<string>, tokens: seq<string>): Result<Query> {
    if tokens == [] then Ok(Query([], []))
    else
      match ParseTokens(stopWords, tokens[..|tokens| - 1])
      case Err(e) => Err(e)
      case Ok(q) =>
        match ParseQueryWord(stopWords, tokens[|tokens| - 1])
        case Err(e) => Err(e)
        case Ok(w) => Ok(AddQueryWord(q, w))
  }

  /** The query the text parses to (ParseQuery applied to SplitIntoWords). */
  function ParsedQuery(stopWords: set<string>, text: string): Result<Query> {
    ParseTokens(stopWords, Tokens(text))
  }

  /** Every token parses on its own. */
  predicate AllWordsParse(stopWords: set<string>, tokens: seq<string>) {
    forall k :: 0 <= k < |tokens| ==> ParseQueryWord(stopWords, tokens[k]).Ok?
  }

  /** The parse fails exactly when some token fails, and then with the error of
      the first failing token: any malformed token fails the whole query. */
  lemma {:induction false} ParseTokensError(stopWords: set<string>, tokens: seq<string>)
    ensures ParseTokens(stopWords, tokens).Ok? <==> AllWordsParse(stopWords, tokens)
    ensures ParseTokens(stopWords, tokens).Err? ==>
              exists k :: 0 <= k < |tokens| && AllWordsParse(stopWords, tokens[..k]) &&
                          ParseQueryWord(stopWords, tokens[k]) == Err(ParseTokens(stopWords, tokens).error)
  {
    if tokens != [] {
      var n := |tokens| - 1;
      var init := tokens[..n];
      ParseTokensError(stopWords, init);
      AllWordsParseSnoc(stopWords, tokens);
      if ParseTokens(stopWords, init).Err? {
        var k :| 0 <= k < |init| && AllWordsParse(stopWords, init[..k]) &&
                 ParseQueryWord(stopWords, init[k]) == Err(ParseTokens(stopWords, init).error);
        assert init[..k] == tokens[..k] && init[k] == tokens[k];
      } else if ParseQueryWord(stopWords, tokens[n]).Err? {
        assert tokens[..n] == init;
      }
    }
  }

  /** Every token parses exactly when those before the last do and the last does. */
  lemma AllWordsParseSnoc(stopWords: set<string>, tokens: seq<string>)
    requires tokens != []
    ensures AllWordsParse(stopWords, tokens) <==>
              AllWordsParse(stopWords, tokens[..|tokens| - 1]) &&
              ParseQueryWord(stopWords, tokens[|tokens| - 1]).Ok?
  {
    var n := |tokens| - 1;
    assert forall k :: 0 <= k < n ==> tokens[..n][k] == tokens[k];
  }

  /** The words of a parsed query, read off the tokens: a plus-word is a token
      that does not start with '-', a minus-word is a token with its one '-'
      stripped; stop words are in neither set, and both sets are kept in
      increasing order. The same word may be in both sets. */
  lemma {:induction false} ParseTokensWords(stopWords: set<string>, tokens: seq<string>)
    requires ParseTokens(stopWords, tokens).Ok?
    ensures StrictlySorted(ParseTokens(stopWords, tokens).value.plusWords)
    ensures StrictlySorted(ParseTokens(stopWords, tokens).value.minusWords)
    ensures forall w :: w in ParseTokens(stopWords, tokens).value.plusWords <==>
                          w in tokens && w != "" && w[0] != '-' && w !in stopWords
    ensures forall w :: w in ParseTokens(stopWords, tokens).value.minusWords <==>
                          "-" + w in tokens && w !in stopWords
  {
    if tokens != [] {
      var n := |tokens| - 1;
      var init := tokens[..n];
      ParseTokensWords(stopWords, init);
      assert tokens == init + [tokens[n]];
      AddTokenWords(stopWords, init, ParseTokens(stopWords, init).value, tokens[n]);
    }
  }

  /** One step of ParseTokensWords: adding the parsed token t to the query of
      init gives the words ParseTokensWords reads off init + [t]. */
  lemma AddTokenWords(stopWords: set<string>, init: seq<string>, q: Query, t: string)
    requires ParseQueryWord(stopWords, t).Ok?
    requires StrictlySorted(q.plusWords) && StrictlySorted(q.minusWords)
    requires forall w :: w in q.plusWords <==> w in init && w != "" && w[0] != '-' && w !in stopWords
    requires forall w :: w in q.minusWords <==> "-" + w in init && w !in stopWords
    ensures var q' := AddQueryWord(q, ParseQueryWord(stopWords, t).value);
            && StrictlySorted(q'.plusWords)
            && StrictlySorted(q'.minusWords)
            && (forall w :: w in q'.plusWords <==> w in init + [t] && w != "" && w[0] != '-' && w !in stopWords)
            && (forall w :: w in q'.minusWords <==> "-" + w in init + [t] && w !in stopWords)
  {
    ParseQueryWordChecks(stopWords, t);
    var w := ParseQueryWord(stopWords, t).value;
    InsertSorted(q.plusWords, w.data);
    InsertSorted(q.minusWords, w.data);
    forall x ensures x in init + [t] <==> x in init || x == t {
    }
    forall x ensures "-" + x == t <==> w.isMinus && x == w.data {
      if "-" + x == t && w.isMinus {
        assert x == t[1..];
      }
    }
  }

  /** A parsed query whose words come from the tokenizer. */
  predicate WellFormedQuery(stopWords: set<string>, q: Query) {
    && StrictlySorted(q.plusWords)
    && StrictlySorted(q.minusWords)
    && (forall w :: w in q.plusWords ==> IsQueryWord(stopWords, w))
    && (forall w :: w in q.minusWords ==> IsQueryWord(stopWords, w))
  }

  /** A word either set may hold: a non-empty, valid, space-free word that
      does not start with '-' and is not a stop word. */
  predicate IsQueryWord(stopWords: set<string>, w: string) {
    IsToken(w) && IsValidWord(w) && w[0] != '-' && w !in stopWords
  }

  /** Everything ParseQuery promises about a successful parse of a text. */
  lemma ParsedQueryWellFormed(stopWords: set<string>, text: string)
    requires ParsedQuery(stopWords, text).Ok?
    ensures WellFormedQuery(stopWords, ParsedQuery(stopWords, text).value)
  {
    var tokens := Tokens(text);
    TokensAreTokens(text);
    ParseTokensError(stopWords, tokens);
    ParseTokensWords(stopWords, tokens);
    var q := ParsedQuery(stopWords, text).value;
    forall w | w in q.plusWords ensures IsQueryWord(stopWords, w) {
      var k :| 0 <= k < |tokens| && tokens[k] == w;
      ParseQueryWordChecks(stopWords, w);
      assert ParseQueryWord(stopWords, tokens[k]).Ok?;
    }
    forall w | w in q.minusWords ensures IsQueryWord(stopWords, w) {
      var k :| 0 <= k < |tokens| && tokens[k] == "-" + w;
      var r := ParseQueryWord(stopWords, tokens[k]);
      ParseQueryWordChecks(stopWords, tokens[k]);
      assert r.Ok?;
      assert r.value.isMinus && r.value.data == w by {
        assert tokens[k][0] == '-';
        assert tokens[k][1..] == w;
      }
      assert forall i :: 0 <= i < |w| ==> w[i] == tokens[k][i + 1];
    }
  }

  /** Once a prefix of the tokens fails to parse, the whole query fails with
      the same error. */
  lemma {:induction false} ParseTokensErrorSticks(stopWords: set<string>, tokens: seq<string>, i: nat)
    requires i <= |tokens|
    requires ParseTokens(stopWords, tokens[..i]).Err?
    ensures ParseTokens(stopWords, tokens) == ParseTokens(stopWords, tokens[..i])
    decreases |tokens| - i
  {
    if i < |tokens| {
      assert tokens[..i + 1][..i] == tokens[..i];
      ParseTokensErrorSticks(stopWords, tokens, i + 1);
    } else {
      assert tokens[..i] == tokens;
    }
  }

  /** "--russian guys", from the demonstration in main: a second leading
      '-' fails the parse. */
  lemma DoubleMinusRejected(stopWords: set<string>)
    ensures ParsedQuery(stopWords, "--russian guys") == Err(DoubleMinusWord)
  {
    var ws := ["--russian", "guys"];
    TwoTokens("--russian", "guys");
    assert Join(ws) == "--russian guys";
    TokensOfJoin(ws);
    assert ParseQueryWord(stopWords, "--russian") == Err(DoubleMinusWord);
    ParseTokensErrorSticks(stopWords, ws, 1);
  }

  /** "guys -": a trailing '-' fails the parse. */
  lemma TrailingMinusRejected(stopWords: set<string>)
    ensures ParsedQuery(stopWords, "guys -") == Err(EmptyMinusWord)
  {
    var ws := ["guys", "-"];
    TwoTokens("guys", "-");
    assert Join(ws) == "guys -";
    TokensOfJoin(ws);
    ParseTokensSnoc(stopWords, [], "guys");
    ParseTokensSnoc(stopWords, ["guys"], "-");
    assert [] + ["guys"] == ["guys"] && ["guys"] + ["-"] == ws;
    assert ParseQueryWord(stopWords, "guys").Ok?;
    assert ParseQueryWord(stopWords, "-") == Err(EmptyMinusWord);
  }

  /** "-" alone: a minus sign without a word. */
  lemma LoneMinusRejected(stopWords: set<string>)
    ensures ParsedQuery(stopWords, "-") == Err(EmptyMinusWord)
  {
    assert Join(["-"]) == "-";
    TokensOfJoin(["-"]);
    ParseTokensSnoc(stopWords, [], "-");
    assert [] + ["-"] == ["-"];
  }

  /** "dragon - snake": the error of the middle token stops the parse. */
  lemma MiddleMinusRejected(stopWords: set<string>)
    ensures ParsedQuery(stopWords, "dragon - snake") == Err(EmptyMinusWord)
  {
    var ws := ["dragon", "-", "snake"];
    ThreeTokens("dragon", "-", "snake");
    assert Join(ws) == "dragon - snake" by {
      assert ws[1..] == ["-", "snake"];
      assert ws[1..][1..] == ["snake"];
      assert Join(["-", "snake"]) == "- snake";
      assert Join(ws) == "dragon" + " " + "- snake";
    }
    TokensOfJoin(ws);
    ParseTokensSnoc(stopWords, [], "dragon");
    ParseTokensSnoc(stopWords, ["dragon"], "-");
    assert [] + ["dragon"] == ["dragon"];
    assert ws[..2] == ["dragon"] + ["-"];
    assert ParseQueryWord(stopWords, "dragon").Ok?;
    assert ParseQueryWord(stopWords, "-") == Err(EmptyMinusWord);
    ParseTokensErrorSticks(stopWords, ws, 2);
  }

  /** "russian -guys": one plus-word and one minus-word. */
  lemma PlusAndMinusAccepted(stopWords: set<string>)
    requires "russian" !in stopWords && "guys" !in stopWords
    ensures ParsedQuery(stopWords, "russian -guys") == Ok(Query(["russian"], ["guys"]))
  {
    var ws := ["russian", "-guys"];
    TwoTokens("russian", "-guys");
    assert Join(ws) == "russian -guys";
    TokensOfJoin(ws);
    PlusAndMinusTokens(stopWords);
  }

  lemma PlusAndMinusTokens(stopWords: set<string>)
    requires "russian" !in stopWords && "guys" !in stopWords
    ensures ParseTokens(stopWords, ["russian", "-guys"]) == Ok(Query(["russian"], ["guys"]))
  {
    PlainWordParses(stopWords, "russian");
    MinusWordParses(stopWords, "guys");
    ParseTokensSnoc(stopWords, [], "russian");
    ParseTokensSnoc(stopWords, ["russian"], "-guys");
    assert [] + ["russian"] == ["russian"] && ["russian"] + ["-guys"] == ["russian", "-guys"];
    assert Insert([], "russian") == ["russian"] && Insert([], "guys") == ["guys"];
  }

  /** A valid word that neither starts nor ends with '-' parses as a
      plus-word, and with a '-' in front as a minus-word. */
  lemma PlainWordParses(stopWords: set<string>, w: string)
    requires w != "" && IsValidWord(w) && w[0] != '-' && w[|w| - 1] != '-'
    ensures ParseQueryWord(stopWords, w) == Ok(QueryWord(w, false, w in stopWords))
  {
  }

  lemma MinusWordParses(stopWords: set<string>, w: string)
    requires w != "" && IsValidWord(w) && w[0] != '-' && w[|w| - 1] != '-'
    ensures ParseQueryWord(stopWords, "-" + w) == Ok(QueryWord(w, true, w in stopWords))
  {
    assert ("-" + w)[1..] == w;
  }

  /** "cat -cat": the same word lands in both sets; MatchDocument and
      FindAllDocuments then give the minus-word the last say. */
  lemma SameWordBothSets(stopWords: set<string>)
    requires "cat" !in stopWords
    ensures ParsedQuery(stopWords, "cat -cat") == Ok(Query(["cat"], ["cat"]))
  {
    var ws := ["cat", "-cat"];
    TwoTokens("cat", "-cat");
    assert Join(ws) == "cat -cat";
    TokensOfJoin(ws);
    PlainWordParses(stopWords, "cat");
    MinusWordParses(stopWords, "cat");
    ParseTokensSnoc(stopWords, [], "cat");
    ParseTokensSnoc(stopWords, ["cat"], "-cat");
    assert [] + ["cat"] == ["cat"] && ["cat"] + ["-cat"] == ws;
    assert Insert([], "cat") == ["cat"];
  }

  /** ParseTokens on one more token: the query so far, extended by the
      token's word, or the first error. */
  lemma ParseTokensSnoc(stopWords: set<string>, init: seq<string>, t: string)
    ensures ParseTokens(stopWords, init + [t]) ==
              match ParseTokens(stopWords, init)
              case Err(e) => Err(e)
              case Ok(q) =>
                match ParseQueryWord(stopWords, t)
                case Err(e) => Err(e)
                case Ok(w) => Ok(AddQueryWord(q, w))
  {
    assert (init + [t])[..|init|] == init;
  }

  lemma ThreeTokens(a: string, b: string, c: string)
    requires IsToken(a) && IsToken(b) && IsToken(c)
    ensures forall k :: 0 <= k < |[a, b, c]| ==> IsToken([a, b, c][k])
  {
  }

  lemma TwoTokens(a: string, b: string)
    requires IsToken(a) && IsToken(b)
    ensures forall k :: 0 <= k < |[a, b]| ==> IsToken([a, b][k])
  {
  }
}
