/**
 * The selectors of the LabelSelectorTester tests, evaluated on every label
 * set. The tests draw their values from the first six characters of a
 * GUID: hexadecimal digits, which are plain words.
 */
module Scenarios {
  import opened Results
  import opened Tokens
  import opened Failures
  import opened Tokenizer
  import opened TokenizerProperties
  import opened Expressions
  import opened Parser
  import opened ParserProperties
  import opened Tester
  import opened SelectorText

  /** string.Join(", ", values) */
  function CommaJoined(values: seq<string>): string
    requires values != []
  {
    if |values| == 1 then values[0] else values[0] + ", " + CommaJoined(values[1..])
  }

  // ---------------------------------------------------------------------------
  // Texts of chunk sequences
  // ---------------------------------------------------------------------------

  lemma {:induction false} JoinSpacesAppend(a: seq<string>, b: seq<string>)
    requires a != [] && b != []
    ensures JoinSpaces(a + b) == JoinSpaces(a) + " " + JoinSpaces(b)
    decreases |a|
  {
    if |a| == 1 {
      assert (a + b)[1..] == b;
    } else {
      assert (a + b)[1..] == a[1..] + b;
      JoinSpacesAppend(a[1..], b);
    }
  }

  lemma {:induction false} ItemsText(values: seq<string>, close: string)
    requires values != []
    ensures JoinSpaces(ItemChunks(values, close)) == CommaJoined(values) + close
    decreases |values|
  {
    if |values| > 1 {
      var rest := ItemChunks(values[1..], close);
      var chunks := [values[0] + ","] + rest;
      assert chunks[1..] == rest;
      calc {
        JoinSpaces(ItemChunks(values, close));
        JoinSpaces(chunks);
        (values[0] + ",") + " " + JoinSpaces(rest);
        { ItemsText(values[1..], close); }
        (values[0] + ",") + " " + (CommaJoined(values[1..]) + close);
        { CommaSpaced(values[0], CommaJoined(values[1..]), close); }
        (values[0] + ", " + CommaJoined(values[1..])) + close;
        CommaJoined(values) + close;
      }
    }
  }

  /** A comma chunk joined by a space to what follows reads as `a, b`. */
  lemma CommaSpaced(a: string, b: string, c: string)
    ensures (a + ",") + " " + (b + c) == (a + ", " + b) + c
  {
  }

  lemma JoinSpacesPrefixed(p: string, chunks: seq<string>)
    requires chunks != []
    ensures JoinSpaces([p + chunks[0]] + chunks[1..]) == p + JoinSpaces(chunks)
  {
    var x := [p + chunks[0]] + chunks[1..];
    if |chunks| > 1 {
      var rest := JoinSpaces(chunks[1..]);
      assert x[1..] == chunks[1..];
      assert JoinSpaces(x) == (p + chunks[0]) + " " + rest;
      assert JoinSpaces(chunks) == chunks[0] + " " + rest;
    } else {
      assert JoinSpaces(x) == p + chunks[0];
    }
  }

  /** `(v0, v1, ..., vn)` followed by the closing text. */
  lemma ListText(values: seq<string>, close: string)
    requires values != []
    ensures JoinSpaces(ListChunks(values, close)) == "(" + CommaJoined(values) + close
  {
    var items := ItemChunks(values, close);
    ItemsText(values, close);
    JoinSpacesPrefixed("(", items);
  }

  /** `key kw (v0, ..., vn)` followed by the closing text. */
  lemma KeywordListText(key: string, kw: string, values: seq<string>, close: string)
    requires values != []
    ensures JoinSpaces([key, kw] + ListChunks(values, close)) == key + " " + kw + " (" + CommaJoined(values) + close
  {
    var list := ListChunks(values, close);
    JoinSpacesAppend([key, kw], list);
    ListText(values, close);
  }

  lemma EnvironmentIsPlain()
    ensures Plain("environment")
  {
    assert "environment"[9..] == "nt";
  }

  lemma ListedValuesArePlain()
    ensures Plain("production") && Plain("qa")
  {
    assert "production"[8..] == "on";
  }

  lemma MisspelledKeywordIsPlain()
    ensures Plain("notIn")
  {
    assert "notIn"[3..] == "In";
  }

  /** A selector of one requirement that throws after it: false if it fails, the exception if it holds. */
  lemma TestOneThenThrow(labels: map<string, string>, e: Expression, failure: Failure)
    ensures Test(labels, Enumeration([e], Some(failure))) == if e.Test(labels) then Err(failure) else Ok(false)
  {
    assert AllHold(labels, [e]) == e.Test(labels);
  }

  // ---------------------------------------------------------------------------
  // The selectors of the tests, for any key and values
  // ---------------------------------------------------------------------------

  /** `key in (v0, ..., vn)` holds exactly when the key's value is listed. */
  lemma InText(labels: map<string, string>, key: string, values: seq<string>)
    requires Plain(key) && values != [] && forall v <- values :: Plain(v)
    ensures Test(labels, Parsed(key + " in (" + CommaJoined(values) + ")")) == Ok(key in labels && labels[key] in values)
  {
    var e := Expression.In(key, values);
    InSelectorText(key, values);
    TestOfText(labels, [e]);
    InMeansListed(key, values, labels);
    TestSingle(labels, e);
  }

  /** The text of the selector `key in (v0, ..., vn)`. */
  lemma InSelectorText(key: string, values: seq<string>)
    requires values != []
    ensures Text([Expression.In(key, values)]) == key + " in (" + CommaJoined(values) + ")"
  {
    var joined := CommaJoined(values);
    calc {
      Text([Expression.In(key, values)]);
      JoinSpaces(RequirementChunks(Expression.In(key, values), ""));
      JoinSpaces([key, "in"] + ListChunks(values, ")" + ""));
      { KeywordListText(key, "in", values, ")" + ""); }
      key + " " + "in" + " (" + joined + (")" + "");
      { InSpelled(key, joined); }
      key + " in (" + joined + ")";
    }
  }

  lemma InSpelled(key: string, list: string)
    ensures key + " " + "in" + " (" + list + (")" + "") == key + " in (" + list + ")"
  {
    assert ")" + "" == ")";
  }

  /** The chunks of the selector `key, key notin (v0, ..., vn)`. */
  lemma PresentAndUnlistedChunks(key: string, values: seq<string>)
    ensures SelectorChunks([Exists(key), Expression.NotIn(key, values)])
         == [key + ",", key, "notin"] + ListChunks(values, ")" + "")
  {
    var es := [Exists(key), Expression.NotIn(key, values)];
    var list := ListChunks(values, ")" + "");
    assert es[1..] == [Expression.NotIn(key, values)];
    calc {
      SelectorChunks(es);
      RequirementChunks(Exists(key), ",") + SelectorChunks([Expression.NotIn(key, values)]);
      RequirementChunks(Exists(key), ",") + RequirementChunks(Expression.NotIn(key, values), "");
      [key + ","] + ([key, "notin"] + list);
      { StringSeqAssoc([key + ","], [key, "notin"], list); }
      [key + ",", key, "notin"] + list;
    }
  }

  lemma StringSeqAssoc(a: seq<string>, b: seq<string>, c: seq<string>)
    ensures a + (b + c) == a + b + c
  {
  }

  lemma NotInSpelled(head: string, list: string)
    ensures head + " " + "notin" + " (" + list + ")" == head + " notin (" + list + ")"
  {
  }

  /** The text of the selector `key, key notin (v0, ..., vn)`. */
  lemma PresentAndUnlistedSelectorText(key: string, values: seq<string>)
    requires values != []
    ensures Text([Exists(key), Expression.NotIn(key, values)])
         == key + ", " + key + " notin (" + CommaJoined(values) + ")"
  {
    PresentAndUnlistedChunks(key, values);
    KeyWordListJoined(key, "notin", values);
    NotInSpelled(key + ", " + key, CommaJoined(values));
  }

  /** `key, key notin (v0, ..., vn)`: the key is present and its value unlisted. */
  lemma PresentAndUnlistedText(labels: map<string, string>, key: string, values: seq<string>)
    requires Plain(key) && values != [] && forall v <- values :: Plain(v)
    ensures Test(labels, Parsed(key + ", " + key + " notin (" + CommaJoined(values) + ")"))
         == Ok(key in labels && labels[key] !in values)
  {
    var es := [Exists(key), Expression.NotIn(key, values)];
    PresentAndUnlistedSelectorText(key, values);
    TestOfText(labels, es);
    assert AllHold(labels, es) <==> es[0].Test(labels) && es[1].Test(labels);
    ExistsMeansPresent(key, labels);
    NotInMeansUnlisted(key, values, labels);
  }

  /** A key followed by a second value token (rather than a keyword or a comma) throws after what came before it. */
  lemma KeyThenValueThrows(ts: seq<Token>, a: string, b: string)
    requires |ts| > 4
    requires ts[..4] == [ValueTok(a), CommaTok, ValueTok(b), ts[3]] && ts[3].Kind() == Value
    ensures RequirementsFrom(ts, 0) == Enumeration([Exists(a)], Some(ArgumentOutOfRange))
  {
    assert ts[0] == ts[..4][0] && ts[1] == ts[..4][1] && ts[2] == ts[..4][2];
    assert KeyRequirementAt(ts, 0) == Ok((Exists(a), 2));
    assert KeyRequirementAt(ts, 2) == Err(ArgumentOutOfRange);
  }

  /** The text of `key, key word (v0, ..., vn)` joins its chunks with single spaces. */
  lemma KeyWordListJoined(key: string, word: string, values: seq<string>)
    requires values != []
    ensures JoinSpaces([key + ",", key, word] + ListChunks(values, ")" + ""))
         == key + ", " + key + " " + word + " (" + CommaJoined(values) + ")"
  {
    var list := ListChunks(values, ")" + "");
    var joined := CommaJoined(values);
    assert [key + ",", key, word] + list == [key + ","] + ([key, word] + list);
    calc {
      JoinSpaces([key + ",", key, word] + list);
      JoinSpaces([key + ","] + ([key, word] + list));
      { JoinSpacesAppend([key + ","], [key, word] + list); }
      JoinSpaces([key + ","]) + " " + JoinSpaces([key, word] + list);
      { KeywordListText(key, word, values, ")" + ""); }
      (key + ",") + " " + (key + " " + word + " (" + joined + (")" + ""));
      { KeyWordSpelled(key, word, joined); }
      key + ", " + key + " " + word + " (" + joined + ")";
    }
  }

  /** The text of `key, key word (list)`, from its comma chunk and the rest. */
  lemma KeyWordSpelled(key: string, word: string, list: string)
    ensures (key + ",") + " " + (key + " " + word + " (" + list + (")" + ""))
         == key + ", " + key + " " + word + " (" + list + ")"
  {
    assert ")" + "" == ")";
  }

  /** The chunks of `key, key word (v0, ..., vn)` are solid, and the last is `vn)`. */
  lemma KeyWordListSolid(key: string, word: string, values: seq<string>)
    requires Plain(key) && Plain(word) && values != [] && forall v <- values :: Plain(v)
    ensures forall c <- [key + ",", key, word] + ListChunks(values, ")" + "") :: Solid(c)
    ensures var chunks := [key + ",", key, word] + ListChunks(values, ")" + "");
            |chunks[|chunks| - 1]| >= 2
  {
    var list := ListChunks(values, ")" + "");
    var chunks := [key + ",", key, word] + list;
    ListChunksSolid(values, "");
    assert NoWhiteSpace(",");
    NoWhiteSpaceAppend(key, ",");
    forall c <- chunks
      ensures Solid(c)
    {
      if c != key + "," && c != key && c != word {
        assert c in list;
      }
    }
    assert chunks[|chunks| - 1] == list[|list| - 1];
  }

  /** The chunks of `key, key word (v0, ..., vn)`. */
  lemma KeyWordListChunks(key: string, word: string, values: seq<string>)
    requires Plain(key) && Plain(word) && values != [] && forall v <- values :: Plain(v)
    ensures Chunks(key + ", " + key + " " + word + " (" + CommaJoined(values) + ")")
         == [key + ",", key, word] + ListChunks(values, ")" + "")
  {
    KeyWordListJoined(key, word, values);
    KeyWordListSolid(key, word, values);
    ChunksOfJoin([key + ",", key, word] + ListChunks(values, ")" + ""));
  }

  /** The tokens of `key, key word (v0, ..., vn)` for a plain word. */
  lemma KeyWordListTokens(key: string, word: string, values: seq<string>)
    requires Plain(key) && Plain(word) && values != [] && forall v <- values :: Plain(v)
    ensures Tokenized(key + ", " + key + " " + word + " (" + CommaJoined(values) + ")")
         == [ValueTok(key), CommaTok, ValueTok(key), ValueTok(word)] + ListTokens(values) + SepTokens("")
  {
    KeyWordListChunks(key, word, values);
    KeyWordChunksTokens(key, word, values);
  }

  /** The chunks `key,` `key` `word` and the list, cut into tokens. */
  lemma KeyWordChunksTokens(key: string, word: string, values: seq<string>)
    requires Plain(key) && Plain(word) && values != [] && forall v <- values :: Plain(v)
    ensures TokensOfChunks([key + ",", key, word] + ListChunks(values, ")" + ""))
         == [ValueTok(key), CommaTok, ValueTok(key), ValueTok(word)] + ListTokens(values) + SepTokens("")
  {
    var list := ListChunks(values, ")" + "");
    var listTokens := TokensOfChunks(list);
    assert [key + ",", key, word] + list == [key + ","] + ([key] + ([word] + list));
    calc {
      TokensOfChunks([key + ","] + ([key] + ([word] + list)));
      { TokensOfChunksCons(key + ",", [key] + ([word] + list)); }
      ToTokens(key + ",") + TokensOfChunks([key] + ([word] + list));
      { TokensOfChunksCons(key, [word] + list); }
      ToTokens(key + ",") + (ToTokens(key) + TokensOfChunks([word] + list));
      { TokensOfChunksCons(word, list); }
      ToTokens(key + ",") + (ToTokens(key) + (ToTokens(word) + listTokens));
      { InnerItemTokens(key); PlainAlone(key); PlainAlone(word); }
      [ValueTok(key), CommaTok] + ([ValueTok(key)] + ([ValueTok(word)] + listTokens));
      [ValueTok(key), CommaTok, ValueTok(key), ValueTok(word)] + listTokens;
    }
    ListChunksTokens(values, "");
    assert listTokens == ListTokens(values) + SepTokens("");
  }

  /**
   * `key, key word (v0, ..., vn)` with a word that is not a keyword: the
   * second requirement is the key followed by a value, which throws after
   * the first requirement was yielded.
   */
  lemma MisspelledKeywordText(key: string, word: string, values: seq<string>)
    requires Plain(key) && Plain(word) && values != [] && forall v <- values :: Plain(v)
    ensures Parsed(key + ", " + key + " " + word + " (" + CommaJoined(values) + ")")
         == Enumeration([Exists(key)], Some(ArgumentOutOfRange))
  {
    KeyWordListTokens(key, word, values);
    var ts := [ValueTok(key), CommaTok, ValueTok(key), ValueTok(word)] + ListTokens(values) + SepTokens("");
    assert ts[..4] == [ValueTok(key), CommaTok, ValueTok(key), ts[3]];
    KeyThenValueThrows(ts, key, key);
  }

  // ---------------------------------------------------------------------------
  // The tests
  // ---------------------------------------------------------------------------

  /** TestInExpression: `environment in (production, qa)` holds exactly when environment is production or qa. */
  lemma InListScenario(labels: map<string, string>)
    ensures Test(labels, Parsed("environment in (production, qa)"))
         == Ok("environment" in labels && (labels["environment"] == "production" || labels["environment"] == "qa"))
  {
    var values := ["production", "qa"];
    EnvironmentIsPlain();
    ListedValuesArePlain();
    InText(labels, "environment", values);
    InListText();
  }

  lemma InListText()
    ensures "environment" + " in (" + CommaJoined(["production", "qa"]) + ")" == "environment in (production, qa)"
  {
  }

  /** TestExistsExpression: `environment` holds exactly when the labels have the key environment. */
  lemma ExistsScenario(labels: map<string, string>)
    ensures Test(labels, Parsed("environment")) == Ok("environment" in labels)
  {
    var e := Exists("environment");
    EnvironmentIsPlain();
    assert Text([e]) == "environment" + "" == "environment";
    TestOfText(labels, [e]);
    ExistsMeansPresent("environment", labels);
    TestSingle(labels, e);
  }

  /** TestNotExistsExpression: `!environment` holds exactly when the labels lack the key environment. */
  lemma NotExistsScenario(labels: map<string, string>)
    ensures Test(labels, Parsed("!environment")) == Ok(!("environment" in labels))
  {
    var e := NotExists("environment");
    EnvironmentIsPlain();
    assert Text([e]) == "!" + "environment" + "" == "!environment";
    TestOfText(labels, [e]);
    NotExistsIsNotExists("environment", labels);
    TestSingle(labels, e);
  }

  /** TestComma_TwoExpression: both requirements must hold, the key present and its value unlisted. */
  lemma TwoRequirementsScenario(labels: map<string, string>, values: seq<string>)
    requires values != [] && forall v <- values :: Plain(v)
    ensures Test(labels, Parsed("environment, environment notin (" + CommaJoined(values) + ")"))
         == Ok("environment" in labels && labels["environment"] !in values)
  {
    EnvironmentIsPlain();
    PresentAndUnlistedText(labels, "environment", values);
    TwoRequirementsText(CommaJoined(values));
  }

  lemma TwoRequirementsText(list: string)
    ensures "environment" + ", " + "environment" + " notin (" + list + ")" == "environment, environment notin (" + list + ")"
  {
  }

  /**
   * TestComma_False: `notIn` is not the keyword `notin`, so the second
   * requirement is the key environment followed by the value notIn, which
   * throws. The test's empty label set sees false from the first requirement
   * before the exception; a label set with environment would see it thrown.
   */
  lemma MisspelledKeywordScenario(labels: map<string, string>, values: seq<string>)
    requires values != [] && forall v <- values :: Plain(v)
    ensures Parsed("environment, environment notIn (" + CommaJoined(values) + ")")
         == Enumeration([Exists("environment")], Some(ArgumentOutOfRange))
    ensures Test(labels, Parsed("environment, environment notIn (" + CommaJoined(values) + ")"))
         == if "environment" in labels then Err(ArgumentOutOfRange) else Ok(false)
  {
    EnvironmentIsPlain();
    MisspelledKeywordIsPlain();
    MisspelledKeywordText("environment", "notIn", values);
    MisspelledText(CommaJoined(values));
    TestOneThenThrow(labels, Exists("environment"), ArgumentOutOfRange);
    ExistsMeansPresent("environment", labels);
  }

  lemma MisspelledText(list: string)
    ensures "environment" + ", " + "environment" + " " + "notIn" + " (" + list + ")"
         == "environment, environment notIn (" + list + ")"
  {
  }
}
