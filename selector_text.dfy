/**
 * Selector text end to end: a selector written the usual way (requirements
 * separated by ", ", values as "(a, b)") is cut into exactly the tokens
 * the grammar spells, so Parse(string) gives back exactly its requirements
 * and LabelSelectorTester.Test(labels, string) is their conjunction. The
 * words of such a text must be plain: no whitespace, no operator
 * characters, and no `in` at the end, which the tokenizer would cut off as
 * a keyword.
 */
module SelectorText {
  import opened Results
  import opened Tokens
  import opened Failures
  import opened Tokenizer
  import opened TokenizerProperties
  import opened Expressions
  import opened Parser
  import opened ParserProperties
  import opened Tester

  /** A key or value the tokenizer keeps whole as one value token. */
  predicate Plain(w: string) {
    w != [] && NoWhiteSpace(w) && NoOperatorChars(w) && !EndsWith(w, "in")
  }

  /** Every key and value of the requirement is plain. */
  predicate PlainWords(e: Expression) {
    Plain(e.key) && ((e.In? || e.NotIn?) ==> forall v <- e.values :: Plain(v))
  }

  /** A final bare key of one character would be a lone final chunk, which the tokenizer drops. */
  predicate LongEnough(e: Expression) {
    e.Exists? ==> |e.key| >= 2
  }

  /** Every requirement is spellable and its words are plain. */
  predicate PlainSelector(es: seq<Expression>) {
    forall e <- es :: Spellable(e) && PlainWords(e)
  }

  /** The selectors whose text survives SplitByWhitespace: plain, and not ending in a one-character key. */
  predicate Writable(es: seq<Expression>) {
    PlainSelector(es) && (es != [] ==> LongEnough(es[|es| - 1]))
  }

  // ---------------------------------------------------------------------------
  // Writing a selector out as text
  // ---------------------------------------------------------------------------

  /** The chunks of a value list after `(`: `v0,` `v1,` ... `vn` followed by the closing text. */
  function ItemChunks(values: seq<string>, close: string): (r: seq<string>)
    ensures |r| == |values|
    ensures values != [] ==> r[|r| - 1] == values[|values| - 1] + close
  {
    if values == [] then []
    else if |values| == 1 then [values[0] + close]
    else [values[0] + ","] + ItemChunks(values[1..], close)
  }

  /** `(v0,` `v1,` ... `vn)`: the list with its opening parenthesis on the first chunk. */
  function ListChunks(values: seq<string>, close: string): seq<string> {
    var items := ItemChunks(values, close);
    if items == [] then ["(" + close] else ["(" + items[0]] + items[1..]
  }

  /** The chunks of one requirement, with `sep` (empty or a comma) after its last one. */
  function RequirementChunks(e: Expression, sep: string): seq<string> {
    match e
    case Exists(key) => [key + sep]
    case NotExists(key) => ["!" + key + sep]
    case In(key, values) => [key, "in"] + ListChunks(values, ")" + sep)
    case NotIn(key, values) => [key, "notin"] + ListChunks(values, ")" + sep)
  }

  /** The chunks of a selector: its requirements, each but the last followed by a comma. */
  function SelectorChunks(es: seq<Expression>): seq<string> {
    if es == [] then []
    else if |es| == 1 then RequirementChunks(es[0], "")
    else RequirementChunks(es[0], ",") + SelectorChunks(es[1..])
  }

  function JoinSpaces(chunks: seq<string>): string {
    if chunks == [] then []
    else if |chunks| == 1 then chunks[0]
    else chunks[0] + " " + JoinSpaces(chunks[1..])
  }

  /** The text of a selector, e.g. `environment in (production, qa), !tier`. */
  function Text(es: seq<Expression>): string {
    JoinSpaces(SelectorChunks(es))
  }

  // ---------------------------------------------------------------------------
  // Tokens of single chunks
  // ---------------------------------------------------------------------------

  lemma EndsInKeywordEndsInIn(w: string)
    ensures EndsWith(w, "notin") ==> EndsWith(w, "in")
  {
    if EndsWith(w, "notin") {
      assert w[|w| - 2..] == w[|w| - 5..][3..];
    }
  }

  /** A plain word followed by nothing or by an operator: one value token, then the operator's tokens. */
  lemma PlainThen(w: string, s: string)
    requires Plain(w)
    requires s == [] || IsOperatorChar(s[0])
    ensures ToTokens(w + s) == [ValueTok(w)] + ToTokens(s)
  {
    EndsInKeywordEndsInIn(w);
    assert w != "in" && w != "notin";
    ValueTextThenOperators(w, s);
  }

  lemma PlainAlone(w: string)
    requires Plain(w)
    ensures ToTokens(w) == [ValueTok(w)]
  {
    PlainThen(w, "");
    assert w + "" == w;
  }

  lemma OpenThen(s: string)
    ensures ToTokens("(" + s) == [OpenTok] + ToTokens(s)
  {
    var c := "(" + s;
    assert c[..1] == "(";
    assert FirstCoexist(c, 0) == Some(0);
    CoexistFirst(c);
    assert c[1..] == s;
  }

  lemma CloseThen(s: string)
    ensures ToTokens(")" + s) == [CloseTok] + ToTokens(s)
  {
    var c := ")" + s;
    assert c[..1] == ")";
    assert FirstCoexist(c, 0) == Some(1);
    CoexistFirst(c);
    assert c[1..] == s;
  }

  lemma CommaThen(s: string)
    ensures ToTokens("," + s) == [CommaTok] + ToTokens(s)
  {
    var c := "," + s;
    assert c[..1] == ",";
    assert FirstCoexist(c, 0) == Some(2);
    CoexistFirst(c);
    assert c[1..] == s;
  }

  /** `!` followed by a plain word (which cannot start with `=`). */
  lemma BangThen(s: string)
    requires s != [] && !IsOperatorChar(s[0])
    ensures ToTokens("!" + s) == [BangTok] + ToTokens(s)
  {
    BangIsFifth(s);
    BangFirst(s);
  }

  lemma BangFirst(s: string)
    requires FirstCoexist("!" + s, 0) == Some(5)
    ensures ToTokens("!" + s) == [BangTok] + ToTokens(s)
  {
    var c := "!" + s;
    CoexistFirst(c);
    assert c[1..] == s;
  }

  /** `!` not followed by `=` matches no earlier entry of the coexisting tokens than `!` itself. */
  lemma BangIsFifth(s: string)
    requires s != [] && !IsOperatorChar(s[0])
    ensures FirstCoexist("!" + s, 0) == Some(5)
  {
    var c := "!" + s;
    assert c[..1] == "!";
    assert c[..2] == ['!', s[0]];
    assert !StartsWith(c, "!=");
    assert FirstCoexist(c, 4) == Some(5);
  }

  function SepTokens(sep: string): seq<Token> {
    if sep == "" then [] else [CommaTok]
  }

  lemma SepAlone(sep: string)
    requires sep == "" || sep == ","
    ensures ToTokens(sep) == SepTokens(sep)
  {
    if sep == "," {
      CommaThen("");
      assert "," + "" == ",";
    }
  }

  lemma KeywordsAlone()
    ensures ToTokens("in") == [InTok]
    ensures ToTokens("notin") == [NotInTok]
  {
    WholeKeywordCase("in", "");
    WholeKeywordCase("notin", "");
    assert "in" + "" == "in";
    assert "notin" + "" == "notin";
  }

  // ---------------------------------------------------------------------------
  // Tokens of chunk sequences
  // ---------------------------------------------------------------------------

  lemma {:induction false} TokensOfChunksAppend(a: seq<string>, b: seq<string>)
    ensures TokensOfChunks(a + b) == TokensOfChunks(a) + TokensOfChunks(b)
  {
    if a != [] {
      assert (a + b)[1..] == a[1..] + b;
      TokensOfChunksAppend(a[1..], b);
    } else {
      assert a + b == b;
    }
  }

  lemma TokensOfChunksCons(c: string, rest: seq<string>)
    ensures TokensOfChunks([c] + rest) == ToTokens(c) + TokensOfChunks(rest)
  {
    assert ([c] + rest)[1..] == rest;
  }

  /** The last item of a list: a value and the closing text, e.g. `v)` or `v),`. */
  lemma LastItemTokens(v: string, sep: string)
    requires Plain(v)
    requires sep == "" || sep == ","
    ensures ToTokens(v + ")" + sep) == [ValueTok(v), CloseTok] + SepTokens(sep)
  {
    var close := ")" + sep;
    assert close[0] == ')';
    assert v + close == v + ")" + sep;
    calc {
      ToTokens(v + close);
      { PlainThen(v, close); }
      [ValueTok(v)] + ToTokens(close);
      { CloseThen(sep); SepAlone(sep); }
      [ValueTok(v)] + ([CloseTok] + SepTokens(sep));
      [ValueTok(v), CloseTok] + SepTokens(sep);
    }
  }

  /** An item before the last: a value and its comma. */
  lemma InnerItemTokens(v: string)
    requires Plain(v)
    ensures ToTokens(v + ",") == [ValueTok(v), CommaTok]
  {
    PlainThen(v, ",");
    CommaThen("");
    assert "," + "" == ",";
  }

  lemma PlainParts(values: seq<string>)
    requires values != [] && forall v <- values :: Plain(v)
    ensures Plain(values[0]) && forall v <- values[1..] :: Plain(v)
  {
    assert values[0] in values;
    assert forall v <- values[1..] :: v in values;
  }

  /** The chunk of a one-value list: the value, `)` and the separator. */
  lemma LastItemChunkTokens(values: seq<string>, sep: string)
    requires |values| == 1 && Plain(values[0])
    requires sep == "" || sep == ","
    ensures TokensOfChunks(ItemChunks(values, ")" + sep)) == ItemTokens(values) + ([CloseTok] + SepTokens(sep))
  {
    var v, close := values[0], ")" + sep;
    assert ItemChunks(values, close) == [v + close] + [];
    assert v + close == v + ")" + sep;
    calc {
      TokensOfChunks([v + close] + []);
      { TokensOfChunksCons(v + close, []); }
      ToTokens(v + close) + [];
      { LastItemTokens(v, sep); }
      [ValueTok(v), CloseTok] + SepTokens(sep) + [];
      [ValueTok(v)] + ([CloseTok] + SepTokens(sep));
    }
    assert ItemTokens(values) == [ValueTok(v)];
  }

  /** The chunk of a value before the last: the value and its comma. */
  lemma InnerItemChunkTokens(values: seq<string>, close: string)
    requires |values| > 1 && Plain(values[0])
    ensures TokensOfChunks(ItemChunks(values, close))
         == [ValueTok(values[0]), CommaTok] + TokensOfChunks(ItemChunks(values[1..], close))
  {
    InnerItemTokens(values[0]);
    TokensOfChunksCons(values[0] + ",", ItemChunks(values[1..], close));
  }

  lemma {:induction false} ItemChunksTokens(values: seq<string>, sep: string)
    requires values != [] && forall v <- values :: Plain(v)
    requires sep == "" || sep == ","
    ensures TokensOfChunks(ItemChunks(values, ")" + sep)) == ItemTokens(values) + ([CloseTok] + SepTokens(sep))
    decreases |values|
  {
    PlainParts(values);
    if |values| == 1 {
      LastItemChunkTokens(values, sep);
    } else {
      InnerItemChunkTokens(values, ")" + sep);
      ItemChunksTokens(values[1..], sep);
      ItemTokensCons(values, [CloseTok] + SepTokens(sep));
    }
  }

  lemma TokenAppendAssoc(a: seq<Token>, b: seq<Token>, c: seq<Token>)
    ensures a + b + c == a + (b + c)
  {
  }

  lemma OpenChunk(c: string, rest: seq<string>)
    ensures TokensOfChunks(["(" + c] + rest) == [OpenTok] + TokensOfChunks([c] + rest)
  {
    calc {
      TokensOfChunks(["(" + c] + rest);
      { TokensOfChunksCons("(" + c, rest); }
      ToTokens("(" + c) + TokensOfChunks(rest);
      { OpenThen(c); }
      [OpenTok] + ToTokens(c) + TokensOfChunks(rest);
      { TokenAppendAssoc([OpenTok], ToTokens(c), TokensOfChunks(rest)); }
      [OpenTok] + (ToTokens(c) + TokensOfChunks(rest));
      { TokensOfChunksCons(c, rest); }
      [OpenTok] + TokensOfChunks([c] + rest);
    }
  }

  lemma OpenItems(items: seq<string>)
    requires items != []
    ensures TokensOfChunks(["(" + items[0]] + items[1..]) == [OpenTok] + TokensOfChunks(items)
  {
    OpenChunk(items[0], items[1..]);
    assert [items[0]] + items[1..] == items;
  }

  lemma ListTokensThen(values: seq<string>, sep: seq<Token>)
    ensures [OpenTok] + (ItemTokens(values) + ([CloseTok] + sep)) == ListTokens(values) + sep
  {
  }

  lemma ListChunksTokens(values: seq<string>, sep: string)
    requires values != [] && forall v <- values :: Plain(v)
    requires sep == "" || sep == ","
    ensures TokensOfChunks(ListChunks(values, ")" + sep)) == ListTokens(values) + SepTokens(sep)
  {
    var items := ItemChunks(values, ")" + sep);
    calc {
      TokensOfChunks(ListChunks(values, ")" + sep));
      TokensOfChunks(["(" + items[0]] + items[1..]);
      { OpenItems(items); }
      [OpenTok] + TokensOfChunks(items);
      { ItemChunksTokens(values, sep); }
      [OpenTok] + (ItemTokens(values) + ([CloseTok] + SepTokens(sep)));
      { ListTokensThen(values, SepTokens(sep)); }
      ListTokens(values) + SepTokens(sep);
    }
  }

  lemma BareKeyTokens(key: string, sep: string)
    requires Plain(key)
    requires sep == "" || sep == ","
    ensures ToTokens(key + sep) == [ValueTok(key)] + SepTokens(sep)
  {
    SepAlone(sep);
    PlainThen(key, sep);
  }

  lemma NegatedKeyTokens(key: string, sep: string)
    requires Plain(key)
    requires sep == "" || sep == ","
    ensures ToTokens("!" + key + sep) == [BangTok, ValueTok(key)] + SepTokens(sep)
  {
    BareKeyTokens(key, sep);
    assert (key + sep)[0] == key[0];
    BangThen(key + sep);
    assert "!" + key + sep == "!" + (key + sep);
  }

  lemma TwoChunksThen(c0: string, c1: string, rest: seq<string>)
    ensures TokensOfChunks([c0, c1] + rest) == ToTokens(c0) + (ToTokens(c1) + TokensOfChunks(rest))
  {
    assert [c0, c1] + rest == [c0] + ([c1] + rest);
    TokensOfChunksCons(c0, [c1] + rest);
    TokensOfChunksCons(c1, rest);
  }

  lemma TwoTokensThen(a: Token, b: Token, list: seq<Token>, sep: seq<Token>)
    ensures [a] + ([b] + (list + sep)) == [a, b] + list + sep
  {
  }

  /** `key kw (v0, ..., vn)` followed by `sep`, where the keyword chunk is one keyword token. */
  lemma KeywordListChunksTokens(key: string, kw: string, kwTok: Token, values: seq<string>, sep: string)
    requires Plain(key) && ToTokens(kw) == [kwTok]
    requires values != [] && forall v <- values :: Plain(v)
    requires sep == "" || sep == ","
    ensures TokensOfChunks([key, kw] + ListChunks(values, ")" + sep))
         == [ValueTok(key), kwTok] + ListTokens(values) + SepTokens(sep)
  {
    var list := ListChunks(values, ")" + sep);
    calc {
      TokensOfChunks([key, kw] + list);
      { TwoChunksThen(key, kw, list); }
      ToTokens(key) + (ToTokens(kw) + TokensOfChunks(list));
      { PlainAlone(key); ListChunksTokens(values, sep); }
      [ValueTok(key)] + ([kwTok] + (ListTokens(values) + SepTokens(sep)));
      { TwoTokensThen(ValueTok(key), kwTok, ListTokens(values), SepTokens(sep)); }
      [ValueTok(key), kwTok] + ListTokens(values) + SepTokens(sep);
    }
  }

  lemma RequirementChunksTokens(e: Expression, sep: string)
    requires Spellable(e) && PlainWords(e)
    requires sep == "" || sep == ","
    ensures TokensOfChunks(RequirementChunks(e, sep)) == RequirementTokens(e) + SepTokens(sep)
  {
    match e
    case Exists(key) =>
      BareKeyTokens(key, sep);
      TokensOfChunksCons(key + sep, []);
    case NotExists(key) =>
      NegatedKeyTokens(key, sep);
      TokensOfChunksCons("!" + key + sep, []);
    case In(key, values) =>
      KeywordsAlone();
      KeywordListChunksTokens(key, "in", InTok, values, sep);
    case NotIn(key, values) =>
      KeywordsAlone();
      KeywordListChunksTokens(key, "notin", NotInTok, values, sep);
  }

  /** The chunks of a selector cut into exactly the selector's tokens. */
  lemma {:induction false} SelectorChunksTokens(es: seq<Expression>)
    requires forall e <- es :: Spellable(e) && PlainWords(e)
    ensures TokensOfChunks(SelectorChunks(es)) == SelectorTokens(es)
    decreases |es|
  {
    if |es| == 1 {
      RequirementChunksTokens(es[0], "");
      assert RequirementTokens(es[0]) + [] == RequirementTokens(es[0]);
    } else if |es| > 1 {
      RequirementChunksTokens(es[0], ",");
      SelectorChunksTokens(es[1..]);
      TokensOfChunksAppend(RequirementChunks(es[0], ","), SelectorChunks(es[1..]));
    }
  }

  // ---------------------------------------------------------------------------
  // Chunks of a text joined by spaces
  // ---------------------------------------------------------------------------

  predicate Solid(c: string) {
    c != [] && NoWhiteSpace(c)
  }

  lemma WordThenSpace(w: string)
    requires Solid(w)
    ensures Words(w + " ") == [w]
  {
    RunPrefix(w, " ");
    var s := w + " ";
    assert s[..|w|] == w;
    assert s[|w|..] == " ";
    assert Words(" ") == Words(" "[1..]);
  }

  lemma SolidParts(chunks: seq<string>)
    requires chunks != [] && forall c <- chunks :: Solid(c)
    ensures Solid(chunks[0]) && forall c <- chunks[1..] :: Solid(c)
  {
    assert chunks[0] in chunks;
    assert forall c <- chunks[1..] :: c in chunks;
  }

  /** The first of several joined chunks comes out as one word, ahead of the words of the rest. */
  lemma WordsOfJoinStep(chunks: seq<string>)
    requires |chunks| > 1 && Solid(chunks[0])
    ensures Words(JoinSpaces(chunks)) == [chunks[0]] + Words(JoinSpaces(chunks[1..]))
  {
    var head := chunks[0] + " ";
    var tail := JoinSpaces(chunks[1..]);
    assert JoinSpaces(chunks) == head + tail;
    WordsAppend(head, tail);
    WordThenSpace(chunks[0]);
  }

  lemma {:induction false} WordsOfJoin(chunks: seq<string>)
    requires forall c <- chunks :: Solid(c)
    ensures Words(JoinSpaces(chunks)) == chunks
    decreases |chunks|
  {
    if chunks != [] {
      SolidParts(chunks);
      if |chunks| == 1 {
        SingleWord(chunks[0]);
      } else {
        WordsOfJoinStep(chunks);
        WordsOfJoin(chunks[1..]);
        assert [chunks[0]] + chunks[1..] == chunks;
      }
    }
  }

  lemma {:induction false} JoinEndsWithLast(chunks: seq<string>)
    requires chunks != []
    ensures EndsWith(JoinSpaces(chunks), chunks[|chunks| - 1])
  {
    if |chunks| > 1 {
      JoinEndsWithLast(chunks[1..]);
      var j := JoinSpaces(chunks[1..]);
      var t := chunks[0] + " " + j;
      var last := chunks[|chunks| - 1];
      assert t[|t| - |last|..] == j[|j| - |last|..];
    }
  }

  /** Joined by single spaces, solid chunks come back out of SplitByWhitespace, unless the last is one character. */
  lemma ChunksOfJoin(chunks: seq<string>)
    requires forall c <- chunks :: Solid(c)
    requires chunks != [] ==> |chunks[|chunks| - 1]| >= 2
    ensures Chunks(JoinSpaces(chunks)) == chunks
  {
    WordsOfJoin(chunks);
    if chunks != [] {
      var text := JoinSpaces(chunks);
      var last := chunks[|chunks| - 1];
      JoinEndsWithLast(chunks);
      assert last in chunks;
      assert text[|text| - 2] == text[|text| - |last|..][|last| - 2] == last[|last| - 2];
      assert text[|text| - 1] == text[|text| - |last|..][|last| - 1] == last[|last| - 1];
      assert !EndsInLoneChar(text);
    }
  }

  // ---------------------------------------------------------------------------
  // The chunks of a written selector are solid
  // ---------------------------------------------------------------------------

  lemma NoWhiteSpaceAppend(a: string, b: string)
    requires NoWhiteSpace(a) && NoWhiteSpace(b)
    ensures NoWhiteSpace(a + b)
  {
    assert forall k :: 0 <= k < |a + b| ==> (a + b)[k] == if k < |a| then a[k] else b[k - |a|];
  }

  lemma {:induction false} ItemChunksSolid(values: seq<string>, close: string)
    requires values != [] && forall v <- values :: Plain(v)
    requires NoWhiteSpace(close) && NoWhiteSpace(",")
    ensures forall c <- ItemChunks(values, close) :: Solid(c)
    decreases |values|
  {
    assert values[0] in values;
    NoWhiteSpaceAppend(values[0], close);
    NoWhiteSpaceAppend(values[0], ",");
    if |values| > 1 {
      assert forall v <- values[1..] :: v in values;
      ItemChunksSolid(values[1..], close);
    }
  }

  lemma ListChunksSolid(values: seq<string>, sep: string)
    requires values != [] && forall v <- values :: Plain(v)
    requires sep == "" || sep == ","
    ensures forall c <- ListChunks(values, ")" + sep) :: Solid(c)
    ensures |ListChunks(values, ")" + sep)[|ListChunks(values, ")" + sep)| - 1]| >= 2
  {
    var close := ")" + sep;
    assert NoWhiteSpace(close) && NoWhiteSpace(",") && NoWhiteSpace("(");
    ItemChunksSolid(values, close);
    var items := ItemChunks(values, close);
    assert Solid(items[0]);
    NoWhiteSpaceAppend("(", items[0]);
    var list := ListChunks(values, close);
    forall c <- list
      ensures Solid(c)
    {
      if c != "(" + items[0] {
        assert c in items[1..];
      }
    }
    assert values[|values| - 1] in values;
    assert |items[|items| - 1]| >= 2;
    assert list[|list| - 1] == if |items| == 1 then "(" + items[0] else items[|items| - 1];
  }

  lemma BareKeySolid(e: Expression, sep: string)
    requires e.Exists? && Plain(e.key)
    requires sep == "" || sep == ","
    ensures forall c <- RequirementChunks(e, sep) :: Solid(c)
    ensures LongEnough(e) ==> |RequirementChunks(e, sep)[|RequirementChunks(e, sep)| - 1]| >= 2
  {
    assert NoWhiteSpace(sep);
    NoWhiteSpaceAppend(e.key, sep);
    assert RequirementChunks(e, sep) == [e.key + sep];
  }

  lemma NegatedKeySolid(e: Expression, sep: string)
    requires e.NotExists? && Plain(e.key)
    requires sep == "" || sep == ","
    ensures forall c <- RequirementChunks(e, sep) :: Solid(c)
    ensures |RequirementChunks(e, sep)[|RequirementChunks(e, sep)| - 1]| >= 2
  {
    assert NoWhiteSpace(sep) && NoWhiteSpace("!");
    NoWhiteSpaceAppend(e.key, sep);
    NoWhiteSpaceAppend("!", e.key + sep);
    assert "!" + e.key + sep == "!" + (e.key + sep);
    assert RequirementChunks(e, sep) == ["!" + e.key + sep];
  }

  lemma KeywordListSolid(key: string, kw: string, values: seq<string>, sep: string)
    requires Plain(key) && Solid(kw)
    requires values != [] && forall v <- values :: Plain(v)
    requires sep == "" || sep == ","
    ensures forall c <- [key, kw] + ListChunks(values, ")" + sep) :: Solid(c)
    ensures |([key, kw] + ListChunks(values, ")" + sep))[|[key, kw] + ListChunks(values, ")" + sep)| - 1]| >= 2
  {
    var list := ListChunks(values, ")" + sep);
    ListChunksSolid(values, sep);
    var all := [key, kw] + list;
    forall c <- all
      ensures Solid(c)
    {
      if c != key && c != kw {
        assert c in list;
      }
    }
    assert all[|all| - 1] == list[|list| - 1];
  }

  lemma RequirementChunksSolid(e: Expression, sep: string)
    requires Spellable(e) && PlainWords(e)
    requires sep == "" || sep == ","
    ensures forall c <- RequirementChunks(e, sep) :: Solid(c)
    ensures LongEnough(e) ==> |RequirementChunks(e, sep)[|RequirementChunks(e, sep)| - 1]| >= 2
  {
    if e.Exists? {
      BareKeySolid(e, sep);
    } else if e.NotExists? {
      NegatedKeySolid(e, sep);
    } else if e.In? {
      assert NoWhiteSpace("in");
      KeywordListSolid(e.key, "in", e.values, sep);
    } else {
      assert NoWhiteSpace("notin");
      KeywordListSolid(e.key, "notin", e.values, sep);
    }
  }

  lemma {:induction false} SelectorChunksSolid(es: seq<Expression>)
    requires PlainSelector(es)
    ensures forall c <- SelectorChunks(es) :: Solid(c)
    ensures es != [] ==> SelectorChunks(es) != []
    ensures es != [] && LongEnough(es[|es| - 1]) ==> |SelectorChunks(es)[|SelectorChunks(es)| - 1]| >= 2
    decreases |es|
  {
    if |es| == 1 {
      RequirementChunksSolid(es[0], "");
    } else if |es| > 1 {
      assert es[0] in es;
      assert forall e <- es[1..] :: e in es;
      RequirementChunksSolid(es[0], ",");
      assert es[1..][|es[1..]| - 1] == es[|es| - 1];
      SelectorChunksSolid(es[1..]);
    }
  }

  // ---------------------------------------------------------------------------
  // End to end
  // ---------------------------------------------------------------------------

  /** The text of a selector tokenizes to exactly the selector's tokens. */
  lemma TokenizeText(es: seq<Expression>)
    requires Writable(es)
    ensures Tokenized(Text(es)) == SelectorTokens(es)
  {
    SelectorChunksSolid(es);
    ChunksOfJoin(SelectorChunks(es));
    SelectorChunksTokens(es);
  }

  /** Round trip through text: Parse(string) of a written selector yields exactly its requirements and no error. */
  lemma TextRoundTrip(es: seq<Expression>)
    requires Writable(es)
    ensures Parsed(Text(es)) == Enumeration(es, None)
  {
    TokenizeText(es);
    ParseSelectorTokens(es);
  }

  /** LabelSelectorTester.Test(labels, string) of a written selector: every requirement holds. */
  lemma TestOfText(labels: map<string, string>, es: seq<Expression>)
    requires Writable(es)
    ensures Test(labels, Parsed(Text(es))) == Ok(AllHold(labels, es))
  {
    TextRoundTrip(es);
  }

  // ---------------------------------------------------------------------------
  // The final one-character chunk
  // ---------------------------------------------------------------------------

  /** As written, a selector made of one character is lost: it parses to nothing and so holds for every label set. */
  lemma LoneKeyIsLost(c: char, labels: map<string, string>)
    requires !IsWhiteSpace(c)
    ensures Parsed([c]) == Enumeration([], None)
    ensures Test(labels, Parsed([c])) == Ok(true)
  {
    SingleWord([c]);
    assert EndsInLoneChar([c]);
    assert Chunks([c]) == [];
  }

  /** Parse as SplitByWhitespace evidently intends it: every whitespace-separated chunk, the last included. */
  function CorrectedParsed(text: string): Enumeration {
    RequirementsFrom(TokensOfChunks(Words(text)), 0)
  }

  /** With the final chunk kept, every plain selector survives the round trip, a one-character final key included. */
  lemma CorrectedTextRoundTrip(es: seq<Expression>)
    requires PlainSelector(es)
    ensures CorrectedParsed(Text(es)) == Enumeration(es, None)
  {
    SelectorChunksSolid(es);
    WordsOfJoin(SelectorChunks(es));
    SelectorChunksTokens(es);
    ParseSelectorTokens(es);
  }

  /** With the final chunk kept, a one-character selector tests for its label. */
  lemma CorrectedLoneKey(c: char, labels: map<string, string>)
    requires Plain([c])
    ensures Test(labels, CorrectedParsed([c])) == Ok([c] in labels)
  {
    var es := [Exists([c])];
    assert [c] + "" == [c];
    assert Text(es) == [c];
    CorrectedTextRoundTrip(es);
    ExistsMeansPresent([c], labels);
    TestSingle(labels, Exists([c]));
  }
}
