/**
 * What the tokenizer guarantees about the tokens of one chunk and of a whole
 * text: the first token a chunk starts with, when a keyword is kept, how
 * value text is cut, and what the tokens spell out.
 */
module TokenizerProperties {
  import opened Results
  import opened Tokens
  import opened Tokenizer

  /** The characters that start a coexist operator. */
  predicate IsOperatorChar(ch: char) {
    ch == '(' || ch == ')' || ch == ',' || ch == '=' || ch == '!'
  }

  predicate NoOperatorChars(s: string) {
    forall k :: 0 <= k < |s| ==> !IsOperatorChar(s[k])
  }

  /** A coexist operator is tried exactly when the chunk starts with an operator character. */
  lemma CoexistIffOperatorChar(chunk: string)
    requires chunk != []
    ensures FirstCoexist(chunk, 0).Some? <==> IsOperatorChar(chunk[0])
  {
    if IsOperatorChar(chunk[0]) {
      var j := if chunk[0] == '(' then 0 else if chunk[0] == ')' then 1
        else if chunk[0] == ',' then 2 else if chunk[0] == '=' then 3 else 5;
      assert StartsWith(chunk, CoexistTokenDefinitions[j].1);
    } else {
      forall j | 0 <= j < |CoexistTokenDefinitions|
        ensures !StartsWith(chunk, CoexistTokenDefinitions[j].1)
      {
        StartsWithHead(chunk, CoexistTokenDefinitions[j].1);
      }
    }
  }

  lemma StartsWithHead(s: string, prefix: string)
    ensures StartsWith(s, prefix) && prefix != [] ==> s[0] == prefix[0]
  {
    if StartsWith(s, prefix) && prefix != [] {
      assert s[0] == s[..|prefix|][0];
    }
  }

  /** The kinds a value-text chunk can start with are not coexist kinds. */
  lemma NotCoexist(k: TokenType)
    requires k == Value || k == In || k == NotIn
    ensures !IsCoexistKind(k)
  {
  }

  /** A keyword is kept at the front of the chunk: the rest has no tokens or starts with a coexist operator. */
  predicate Kept(chunk: string, keyword: string) {
    StartsWith(chunk, keyword)
    && (ToTokens(chunk[|keyword|..]) == [] || IsCoexistKind(ToTokens(chunk[|keyword|..])[0].Kind()))
  }

  /** The first round of the keyword loop tries `in`. */
  lemma FirstKeywordTried(chunk: string)
    requires chunk != []
    ensures TryMonopoly(chunk, 0) ==
      if Kept(chunk, "in") then [MakeToken(In, "in")] + ToTokens(chunk[2..]) else TryMonopoly(chunk, 1)
  {
    assert MonopolyTokenDefinitions[0] == (In, "in");
  }

  /** The second round of the keyword loop tries `notin`. */
  lemma SecondKeywordTried(chunk: string)
    requires chunk != []
    ensures TryMonopoly(chunk, 1) ==
      if Kept(chunk, "notin") then [MakeToken(NotIn, "notin")] + ToTokens(chunk[5..]) else TryMonopoly(chunk, 2)
  {
    assert MonopolyTokenDefinitions[1] == (NotIn, "notin");
  }

  /** After the last keyword the chunk is value text. */
  lemma NoKeywordLeft(chunk: string)
    requires chunk != []
    ensures TryMonopoly(chunk, 2) == ValueFallback(chunk)
  {
  }

  /** ToTokens of a chunk that starts with no operator: keyword `in`, keyword `notin`, or value text, in that order. */
  lemma NoCoexistCases(chunk: string)
    requires chunk != [] && FirstCoexist(chunk, 0).None?
    ensures ToTokens(chunk) ==
      if Kept(chunk, "in") then [MakeToken(In, "in")] + ToTokens(chunk[2..])
      else if Kept(chunk, "notin") then [MakeToken(NotIn, "notin")] + ToTokens(chunk[5..])
      else ValueFallback(chunk)
  {
    assert ToTokens(chunk) == TryMonopoly(chunk, 0);
    FirstKeywordTried(chunk);
    SecondKeywordTried(chunk);
    NoKeywordLeft(chunk);
  }

  /** A chunk starting with an operator starts with the first operator of the table that matches it. */
  lemma CoexistFirst(chunk: string)
    requires chunk != [] && FirstCoexist(chunk, 0).Some?
    ensures var d := CoexistTokenDefinitions[FirstCoexist(chunk, 0).value];
      ToTokens(chunk) == [MakeToken(d.0, d.1)] + ToTokens(chunk[|d.1|..])
      && ToTokens(chunk)[0].Kind() == d.0 && IsCoexistKind(d.0)
  {
  }

  /** `!=` is listed before `!`, so `!=` is one token. */
  lemma ExclamationEqualWins(rest: string)
    ensures ToTokens("!=" + rest)[0] == Token(ExclamationEqualToken, "!=")
  {
    var c := "!=" + rest;
    assert c[..1] == "!" && c[..2] == "!=";
    assert !StartsWith(c, "(") && !StartsWith(c, ")") && !StartsWith(c, ",") && !StartsWith(c, "=");
    assert StartsWith(c, "!=");
    assert FirstCoexist(c, 0) == Some(4);
  }

  /** There is no `==` operator: it is two `=` tokens. */
  lemma DoubleEqualIsTwoTokens()
    ensures ToTokens("==") == [Token(EqualToken, "="), Token(EqualToken, "=")]
  {
    var c := "==";
    assert c[..1] == "=";
    assert FirstCoexist(c, 0) == Some(3);
    assert c[1..] == "=";
    assert FirstCoexist("=", 0) == Some(3);
    assert "="[1..] == [];
  }

  /** The first token is `In` exactly when the chunk starts with `in` and that keyword is kept. */
  lemma InIff(chunk: string)
    ensures (ToTokens(chunk) != [] && ToTokens(chunk)[0].Kind() == In) <==> Kept(chunk, "in")
  {
    if chunk != [] {
      CoexistIffOperatorChar(chunk);
      if StartsWith(chunk, "in") {
        assert chunk[0] == "in"[0];
      }
      if FirstCoexist(chunk, 0).None? {
        NoCoexistCases(chunk);
        FallbackStartsWithValue(chunk);
      } else {
        CoexistFirst(chunk);
      }
    }
  }

  /** The first token is `NotIn` exactly when the chunk starts with `notin` and that keyword is kept. */
  lemma NotInIff(chunk: string)
    ensures (ToTokens(chunk) != [] && ToTokens(chunk)[0].Kind() == NotIn) <==> Kept(chunk, "notin")
  {
    if chunk != [] {
      CoexistIffOperatorChar(chunk);
      if StartsWith(chunk, "notin") {
        assert chunk[0] == "notin"[0];
        assert !StartsWith(chunk, "in");
      }
      if FirstCoexist(chunk, 0).None? {
        NoCoexistCases(chunk);
        FallbackStartsWithValue(chunk);
      } else {
        CoexistFirst(chunk);
      }
    }
  }

  lemma FallbackStartsWithValue(chunk: string)
    requires chunk != []
    ensures ValueFallback(chunk) != [] && ValueFallback(chunk)[0].Kind() == Value
  {
  }

  /** No two value tokens stand next to each other. */
  predicate NoAdjacentValueTokens(ts: seq<Token>) {
    forall k :: 0 <= k < |ts| - 1 ==> !(ts[k].Kind() == Value && ts[k + 1].Kind() == Value)
  }

  /** Every value token holds no operator character. */
  predicate ValueTokensPlain(ts: seq<Token>) {
    forall k :: 0 <= k < |ts| && ts[k].Kind() == Value ==> NoOperatorChars(ts[k].value)
  }

  lemma AdjacentInTail(t: Token, tail: seq<Token>)
    requires tail != [] && t.Kind() == Value ==> tail[0].Kind() != Value
    requires NoAdjacentValueTokens(tail)
    ensures NoAdjacentValueTokens([t] + tail)
  {
    forall k | 0 <= k < |[t] + tail| - 1
      ensures !(([t] + tail)[k].Kind() == Value && ([t] + tail)[k + 1].Kind() == Value)
    {
      if k > 0 {
        assert ([t] + tail)[k] == tail[k - 1] && ([t] + tail)[k + 1] == tail[k];
      }
    }
  }

  lemma AdjacentInRest(next: seq<Token>)
    requires next != [] && NoAdjacentValueTokens(next)
    ensures NoAdjacentValueTokens(next[1..])
    ensures |next| > 1 && next[0].Kind() == Value ==> next[1..][0].Kind() != Value
  {
    forall k | 0 <= k < |next[1..]| - 1
      ensures !(next[1..][k].Kind() == Value && next[1..][k + 1].Kind() == Value)
    {
      assert next[1..][k] == next[k + 1] && next[1..][k + 1] == next[k + 2];
    }
  }

  /** The value-text step: merging into the following value token keeps values apart. */
  lemma NoAdjacentInFallback(chunk: string)
    requires chunk != [] && NoAdjacentValueTokens(ToTokens(chunk[1..]))
    ensures NoAdjacentValueTokens(ValueFallback(chunk))
  {
    var next := ToTokens(chunk[1..]);
    if |next| > 0 && next[0].Kind() == Value {
      var t := MakeToken(Value, chunk[..|next[0].value| + 1]);
      assert ValueFallback(chunk) == [t] + next[1..];
      AdjacentInRest(next);
      AdjacentInTail(t, next[1..]);
    } else if |next| > 0 {
      AdjacentInTail(MakeToken(Value, chunk[..1]), next);
    }
  }

  /** No two value tokens are ever adjacent: value text is merged. */
  lemma {:induction false} NoAdjacentValues(chunk: string)
    ensures forall k :: 0 <= k < |ToTokens(chunk)| - 1 ==>
                          !(ToTokens(chunk)[k].Kind() == Value && ToTokens(chunk)[k + 1].Kind() == Value)
    decreases |chunk|
  {
    if chunk == [] {
    } else if FirstCoexist(chunk, 0).Some? {
      var d := CoexistTokenDefinitions[FirstCoexist(chunk, 0).value];
      CoexistFirst(chunk);
      NoAdjacentValues(chunk[|d.1|..]);
      AdjacentInTail(MakeToken(d.0, d.1), ToTokens(chunk[|d.1|..]));
    } else {
      NoCoexistCases(chunk);
      if Kept(chunk, "in") {
        NoAdjacentValues(chunk[2..]);
        AdjacentInTail(MakeToken(In, "in"), ToTokens(chunk[2..]));
      } else if Kept(chunk, "notin") {
        NoAdjacentValues(chunk[5..]);
        AdjacentInTail(MakeToken(NotIn, "notin"), ToTokens(chunk[5..]));
      } else {
        NoAdjacentValues(chunk[1..]);
        NoAdjacentInFallback(chunk);
      }
    }
  }

  lemma ValuesInTail(t: Token, tail: seq<Token>)
    requires t.Kind() == Value ==> NoOperatorChars(t.value)
    requires ValueTokensPlain(tail)
    ensures ValueTokensPlain([t] + tail)
  {
    forall k | 0 <= k < |[t] + tail| && ([t] + tail)[k].Kind() == Value
      ensures NoOperatorChars(([t] + tail)[k].value)
    {
      if k > 0 {
        assert ([t] + tail)[k] == tail[k - 1];
      }
    }
  }

  lemma ValuesInRest(next: seq<Token>)
    requires next != [] && ValueTokensPlain(next)
    ensures ValueTokensPlain(next[1..])
  {
    forall k | 0 <= k < |next[1..]| && next[1..][k].Kind() == Value
      ensures NoOperatorChars(next[1..][k].value)
    {
      assert next[1..][k] == next[k + 1];
    }
  }

  lemma PlainCons(c: char, v: string)
    requires !IsOperatorChar(c) && NoOperatorChars(v)
    ensures NoOperatorChars([c] + v)
  {
    forall k | 0 <= k < |[c] + v| ensures !IsOperatorChar(([c] + v)[k]) {
      if k > 0 {
        assert ([c] + v)[k] == v[k - 1];
      }
    }
  }

  /** The value-text step: a first character that is no operator, merged into value text without operators. */
  lemma ValuesInFallback(chunk: string)
    requires chunk != [] && !IsOperatorChar(chunk[0]) && ValueTokensPlain(ToTokens(chunk[1..]))
    ensures ValueTokensPlain(ValueFallback(chunk))
  {
    var next := ToTokens(chunk[1..]);
    if |next| > 0 && next[0].Kind() == Value {
      MergeCovers(chunk, next);
      var t := MakeToken(Value, chunk[..|next[0].value| + 1]);
      assert t.value == [chunk[0]] + next[0].value;
      PlainCons(chunk[0], next[0].value);
      ValuesInRest(next);
      ValuesInTail(t, next[1..]);
    } else if |next| > 0 {
      ValuesInTail(MakeToken(Value, chunk[..1]), next);
    } else {
      assert chunk == [chunk[0]];
    }
  }

  /** Value tokens never hold an operator character. */
  lemma {:induction false} ValuesHoldNoOperators(chunk: string)
    ensures forall k :: 0 <= k < |ToTokens(chunk)| && ToTokens(chunk)[k].Kind() == Value ==>
                          NoOperatorChars(ToTokens(chunk)[k].value)
    decreases |chunk|
  {
    if chunk == [] {
    } else if FirstCoexist(chunk, 0).Some? {
      var d := CoexistTokenDefinitions[FirstCoexist(chunk, 0).value];
      CoexistFirst(chunk);
      ValuesHoldNoOperators(chunk[|d.1|..]);
      ValuesInTail(MakeToken(d.0, d.1), ToTokens(chunk[|d.1|..]));
    } else {
      CoexistIffOperatorChar(chunk);
      NoCoexistCases(chunk);
      if Kept(chunk, "in") {
        ValuesHoldNoOperators(chunk[2..]);
        ValuesInTail(MakeToken(In, "in"), ToTokens(chunk[2..]));
      } else if Kept(chunk, "notin") {
        ValuesHoldNoOperators(chunk[5..]);
        ValuesInTail(MakeToken(NotIn, "notin"), ToTokens(chunk[5..]));
      } else {
        ValuesHoldNoOperators(chunk[1..]);
        ValuesInFallback(chunk);
      }
    }
  }

  // ---------------------------------------------------------------------------
  // Value text without operators
  // ---------------------------------------------------------------------------

  predicate EndsWith(s: string, suffix: string) {
    |suffix| <= |s| && s[|s| - |suffix|..] == suffix
  }

  /**
   * The tokens of operator-free text. Only a keyword at the very end of the
   * text survives, because only there does nothing follow it; everything
   * before it is a single value token.
   */
  function KeywordSplit(v: string): (r: seq<Token>)
    ensures v != [] ==> r != [] && (r[0].Kind() == Value || r[0].Kind() == In || r[0].Kind() == NotIn)
  {
    if v == [] then []
    else if v == "in" then [Token(InToken, "in")]
    else if v == "notin" then [Token(NotInToken, "notin")]
    else if EndsWith(v, "notin") then [Token(ValueToken, v[..|v| - 5]), Token(NotInToken, "notin")]
    else if EndsWith(v, "in") then [Token(ValueToken, v[..|v| - 2]), Token(InToken, "in")]
    else [Token(ValueToken, v)]
  }

  lemma KeywordPrefixIsInWord(v: string, s: string, m: string)
    requires m == "in" || m == "notin"
    requires s == [] || IsOperatorChar(s[0])
    ensures StartsWith(v + s, m) ==> StartsWith(v, m)
  {
    KeywordReachesOperator(v, s, m);
    if StartsWith(v + s, m) {
      assert |v| >= |m|;
      assert (v + s)[..|m|] == v[..|m|];
    }
  }

  lemma KeywordReachesOperator(v: string, s: string, m: string)
    requires m == "in" || m == "notin"
    ensures StartsWith(v + s, m) && |v| < |m| && s != [] ==> m[|v|] == s[0] && !IsOperatorChar(m[|v|])
  {
    if StartsWith(v + s, m) && |v| < |m| && s != [] {
      assert (v + s)[..|m|][|v|] == s[0];
    }
  }

  /** Tokens that begin with a split value text begin with no coexist operator. */
  lemma SplitTextLeads(w: string, s: string)
    requires w != [] && ToTokens(w + s) == KeywordSplit(w) + ToTokens(s)
    ensures ToTokens(w + s) != [] && !IsCoexistKind(ToTokens(w + s)[0].Kind())
  {
    var k := KeywordSplit(w);
    assert ToTokens(w + s)[0] == k[0];
    NotCoexist(k[0].Kind());
  }

  lemma ProperSuffix(v: string, s: string, m: string)
    requires StartsWith(v, m) && v != m
    ensures v[|m|..] != [] && (v + s)[|m|..] == v[|m|..] + s
  {
    assert v == v[..|m|] + v[|m|..];
    assert (v + s)[|m|..] == v[|m|..] + s;
  }

  /** The tokens of a chunk that starts with no keyword are never kept as a keyword after `m`. */
  lemma ValueSuffixRejectsKeyword(v: string, s: string, m: string)
    requires StartsWith(v, m) && v != m
    requires ToTokens(v[|m|..] + s) == KeywordSplit(v[|m|..]) + ToTokens(s)
    ensures !Kept(v + s, m)
  {
    ProperSuffix(v, s, m);
    SplitTextLeads(v[|m|..], s);
  }

  lemma TokensAfterOperatorText(s: string)
    requires s != [] && IsOperatorChar(s[0])
    ensures ToTokens(s) != [] && IsCoexistKind(ToTokens(s)[0].Kind())
  {
    CoexistIffOperatorChar(s);
    CoexistFirst(s);
  }

  /**
   * Operator-free text v followed by nothing or by an operator tokenizes as
   * KeywordSplit(v) followed by the tokens of the rest. So `notinvalid` is
   * one value, `admin` is the value `adm` and the keyword `in`, and `inin`
   * is the value `in` and the keyword `in`.
   */
  lemma {:induction false} ValueTextThenOperators(v: string, s: string)
    requires NoOperatorChars(v)
    requires s == [] || IsOperatorChar(s[0])
    ensures ToTokens(v + s) == KeywordSplit(v) + ToTokens(s)
    decreases |v|
  {
    if v == [] {
      assert v + s == s;
    } else if v == "in" || v == "notin" {
      WholeKeywordCase(v, s);
    } else {
      if StartsWith(v, "in") {
        OperatorFreeSuffix(v, 2);
        ValueTextThenOperators(v[2..], s);
      }
      if StartsWith(v, "notin") {
        OperatorFreeSuffix(v, 5);
        ValueTextThenOperators(v[5..], s);
      }
      OperatorFreeSuffix(v, 1);
      ValueTextThenOperators(v[1..], s);
      NoKeywordKept(v, s);
      FallbackOfWord(v, s);
    }
  }

  lemma OperatorFreeSuffix(v: string, k: nat)
    requires NoOperatorChars(v) && k <= |v|
    ensures NoOperatorChars(v[k..])
  {
  }

  lemma WholeKeywordCase(v: string, s: string)
    requires v == "in" || v == "notin"
    requires s == [] || IsOperatorChar(s[0])
    ensures ToTokens(v + s) == KeywordSplit(v) + ToTokens(s)
  {
    if v == "in" {
      WholeInCase(s);
    } else {
      WholeNotInCase(s);
    }
  }

  lemma WholeInCase(s: string)
    requires s == [] || IsOperatorChar(s[0])
    ensures ToTokens("in" + s) == [MakeToken(In, "in")] + ToTokens(s)
  {
    var c := "in" + s;
    assert c[0] == 'i';
    CoexistIffOperatorChar(c);
    NoCoexistCases(c);
    WholeKeywordKept(s, "in");
  }

  lemma WholeNotInCase(s: string)
    requires s == [] || IsOperatorChar(s[0])
    ensures ToTokens("notin" + s) == [MakeToken(NotIn, "notin")] + ToTokens(s)
  {
    NotInFront(s);
    WholeKeywordKept(s, "notin");
    NotInKept("notin" + s);
  }

  /** A chunk starting with `notin` starts with no operator and not with `in`. */
  lemma NotInFront(s: string)
    ensures FirstCoexist("notin" + s, 0).None? && !StartsWith("notin" + s, "in")
  {
    var c := "notin" + s;
    assert c[0] == 'n';
    CoexistIffOperatorChar(c);
    assert c[..2] == "no";
  }

  /** A chunk that starts with no operator and keeps `notin` (and not `in`) at its front. */
  lemma NotInKept(chunk: string)
    requires chunk != [] && FirstCoexist(chunk, 0).None?
    requires !StartsWith(chunk, "in") && Kept(chunk, "notin")
    ensures ToTokens(chunk) == [MakeToken(NotIn, "notin")] + ToTokens(chunk[5..])
  {
    NoCoexistCases(chunk);
  }

  /** A word that is not itself a keyword keeps no keyword at its front, so it goes to value text. */
  lemma NoKeywordKept(v: string, s: string)
    requires v != [] && NoOperatorChars(v) && v != "in" && v != "notin"
    requires s == [] || IsOperatorChar(s[0])
    requires StartsWith(v, "in") ==> ToTokens(v[2..] + s) == KeywordSplit(v[2..]) + ToTokens(s)
    requires StartsWith(v, "notin") ==> ToTokens(v[5..] + s) == KeywordSplit(v[5..]) + ToTokens(s)
    ensures ToTokens(v + s) == ValueFallback(v + s)
  {
    var c := v + s;
    assert c[0] == v[0];
    CoexistIffOperatorChar(c);
    NoCoexistCases(c);
    KeywordPrefixIsInWord(v, s, "in");
    KeywordPrefixIsInWord(v, s, "notin");
    if StartsWith(v, "in") {
      ValueSuffixRejectsKeyword(v, s, "in");
    }
    if StartsWith(v, "notin") {
      ValueSuffixRejectsKeyword(v, s, "notin");
    }
  }

  lemma WholeKeywordKept(s: string, m: string)
    requires m == "in" || m == "notin"
    requires s == [] || IsOperatorChar(s[0])
    ensures Kept(m + s, m)
    ensures (m + s)[..|m|] == m && (m + s)[|m|..] == s
  {
    assert (m + s)[..|m|] == m;
    assert (m + s)[|m|..] == s;
    if s != [] {
      TokensAfterOperatorText(s);
    }
  }

  /** The value-text step of ValueFallback on the tokens of the rest of the chunk. */
  function Merge(ch: char, next: seq<Token>): seq<Token> {
    if next != [] && next[0].Kind() == Value then [Token(ValueToken, [ch] + next[0].value)] + next[1..]
    else if next != [] then [Token(ValueToken, [ch])] + next
    else [Token(ValueToken, [ch])]
  }

  lemma FallbackIsMerge(chunk: string)
    requires chunk != []
    ensures ValueFallback(chunk) == Merge(chunk[0], ToTokens(chunk[1..]))
  {
    var next := ToTokens(chunk[1..]);
    if next != [] && next[0].Kind() == Value {
      MergeCovers(chunk, next);
    } else if next != [] {
      assert chunk[..1] == [chunk[0]];
    } else {
      assert chunk[1..] == Texts(next) == [];
      assert chunk == [chunk[0]];
    }
  }

  /** The value-text step of ValueTextThenOperators. */
  lemma FallbackOfWord(v: string, s: string)
    requires v != [] && NoOperatorChars(v)
    requires s == [] || IsOperatorChar(s[0])
    requires v != "in" && v != "notin"
    requires ToTokens(v[1..] + s) == KeywordSplit(v[1..]) + ToTokens(s)
    ensures ValueFallback(v + s) == KeywordSplit(v) + ToTokens(s)
  {
    FallbackOfConcat(v, s);
    RestIsNoValue(s);
    MergeKeywordSplit(v, ToTokens(s));
  }

  lemma FallbackOfConcat(v: string, s: string)
    requires v != []
    ensures ValueFallback(v + s) == Merge(v[0], ToTokens(v[1..] + s))
  {
    var c := v + s;
    assert c[0] == v[0] && c[1..] == v[1..] + s;
    FallbackIsMerge(c);
  }

  lemma RestIsNoValue(s: string)
    requires s == [] || IsOperatorChar(s[0])
    ensures ToTokens(s) == [] || ToTokens(s)[0].Kind() != Value
  {
    if s != [] {
      TokensAfterOperatorText(s);
      NotCoexist(Value);
    }
  }

  lemma MergeOneChar(v: string, rest: seq<Token>)
    requires |v| == 1
    requires rest == [] || rest[0].Kind() != Value
    ensures Merge(v[0], KeywordSplit(v[1..]) + rest) == KeywordSplit(v) + rest
  {
    assert !EndsWith(v, "in") && !EndsWith(v, "notin");
    assert KeywordSplit(v[1..]) + rest == rest;
    assert v == [v[0]];
  }

  lemma MergeBeforeWholeIn(v: string, rest: seq<Token>)
    requires |v| == 3 && v[1..] == "in" && v != "notin"
    requires rest == [] || rest[0].Kind() != Value
    ensures Merge(v[0], KeywordSplit(v[1..]) + rest) == KeywordSplit(v) + rest
  {
    assert EndsWith(v, "in") && !EndsWith(v, "notin");
    assert v[..|v| - 2] == [v[0]];
  }

  lemma MergeBeforeWholeNotIn(v: string, rest: seq<Token>)
    requires |v| == 6 && v[1..] == "notin"
    requires rest == [] || rest[0].Kind() != Value
    ensures Merge(v[0], KeywordSplit(v[1..]) + rest) == KeywordSplit(v) + rest
  {
    assert EndsWith(v, "notin");
    assert v[..|v| - 5] == [v[0]];
  }

  lemma MergeBeforeSuffix(v: string, m: string, rest: seq<Token>)
    requires m == "in" || m == "notin"
    requires |v| >= 2 && v[1..] != "in" && v[1..] != "notin" && EndsWith(v[1..], m)
    requires v != "in" && v != "notin"
    requires m == "in" ==> !EndsWith(v[1..], "notin")
    requires rest == [] || rest[0].Kind() != Value
    ensures Merge(v[0], KeywordSplit(v[1..]) + rest) == KeywordSplit(v) + rest
  {
    if m == "in" {
      MergeBeforeIn(v, rest);
    } else {
      MergeBeforeNotIn(v, rest);
    }
  }

  lemma MergeBeforeIn(v: string, rest: seq<Token>)
    requires |v| >= 2 && v[1..] != "in" && v[1..] != "notin" && EndsWith(v[1..], "in") && !EndsWith(v[1..], "notin")
    requires v != "in" && v != "notin"
    ensures Merge(v[0], KeywordSplit(v[1..]) + rest) == KeywordSplit(v) + rest
  {
    var d := v[1..];
    var keyword := Token(InToken, "in");
    MergeBeforeKeyword(v, "in");
    SuffixOfWord(v, "notin");
    assert KeywordSplit(d) == [Token(ValueToken, d[..|d| - 2]), keyword];
    assert KeywordSplit(d) + rest == [Token(ValueToken, d[..|d| - 2])] + ([keyword] + rest);
    calc {
      Merge(v[0], KeywordSplit(d) + rest);
      [Token(ValueToken, [v[0]] + d[..|d| - 2])] + ([keyword] + rest);
      [Token(ValueToken, v[..|v| - 2])] + ([keyword] + rest);
      { assert KeywordSplit(v) == [Token(ValueToken, v[..|v| - 2]), keyword]; }
      KeywordSplit(v) + rest;
    }
  }

  lemma MergeBeforeNotIn(v: string, rest: seq<Token>)
    requires |v| >= 2 && v[1..] != "in" && v[1..] != "notin" && EndsWith(v[1..], "notin")
    requires v != "in" && v != "notin"
    ensures Merge(v[0], KeywordSplit(v[1..]) + rest) == KeywordSplit(v) + rest
  {
    var d := v[1..];
    var keyword := Token(NotInToken, "notin");
    MergeBeforeKeyword(v, "notin");
    assert KeywordSplit(d) == [Token(ValueToken, d[..|d| - 5]), keyword];
    assert KeywordSplit(d) + rest == [Token(ValueToken, d[..|d| - 5])] + ([keyword] + rest);
    calc {
      Merge(v[0], KeywordSplit(d) + rest);
      [Token(ValueToken, [v[0]] + d[..|d| - 5])] + ([keyword] + rest);
      [Token(ValueToken, v[..|v| - 5])] + ([keyword] + rest);
      [Token(ValueToken, v[..|v| - 5]), keyword] + rest;
    }
  }

  lemma MergePlainWord(v: string, rest: seq<Token>)
    requires |v| >= 2 && v != "in" && v != "notin"
    requires v[1..] != "in" && v[1..] != "notin" && !EndsWith(v[1..], "in") && !EndsWith(v[1..], "notin")
    requires rest == [] || rest[0].Kind() != Value
    ensures Merge(v[0], KeywordSplit(v[1..]) + rest) == KeywordSplit(v) + rest
  {
    SuffixOfWord(v, "in");
    SuffixOfWord(v, "notin");
    assert KeywordSplit(v[1..]) == [Token(ValueToken, v[1..])];
    assert v == [v[0]] + v[1..];
  }

  /** Merging the first character into the split of the rest of a word gives the split of the word. */
  lemma MergeKeywordSplit(v: string, rest: seq<Token>)
    requires v != [] && v != "in" && v != "notin"
    requires rest == [] || rest[0].Kind() != Value
    ensures Merge(v[0], KeywordSplit(v[1..]) + rest) == KeywordSplit(v) + rest
  {
    var d := v[1..];
    if d == [] {
      MergeOneChar(v, rest);
    } else if d == "in" {
      MergeBeforeWholeIn(v, rest);
    } else if d == "notin" {
      MergeBeforeWholeNotIn(v, rest);
    } else if EndsWith(d, "notin") {
      MergeBeforeSuffix(v, "notin", rest);
    } else if EndsWith(d, "in") {
      MergeBeforeSuffix(v, "in", rest);
    } else {
      MergePlainWord(v, rest);
    }
  }

  /** v ends with keyword m exactly when its tail does, unless v is m itself. */
  lemma SuffixOfWord(v: string, m: string)
    requires v != [] && v != m && m != []
    ensures EndsWith(v, m) <==> EndsWith(v[1..], m)
  {
    if |v| > |m| {
      assert v[|v| - |m|..] == v[1..][|v[1..]| - |m|..];
    }
  }

  lemma MergeBeforeKeyword(v: string, m: string)
    requires m == "in" || m == "notin"
    requires |v| >= 2 && v[1..] != m && EndsWith(v[1..], m)
    requires v != "in" && v != "notin"
    requires m == "in" ==> !EndsWith(v[1..], "notin")
    ensures EndsWith(v, m)
    ensures v[..|v| - |m|] == [v[0]] + v[1..][..|v[1..]| - |m|]
    ensures m == "notin" ==> KeywordSplit(v) == [Token(ValueToken, v[..|v| - 5]), Token(NotInToken, "notin")]
  {
    var d := v[1..];
    assert v[|v| - |m|..] == d[|d| - |m|..];
    assert v[..|v| - |m|] == [v[0]] + d[..|d| - |m|];
  }

  /** A keyword-looking prefix followed by more value text stays value text. */
  lemma NotInValidIsOneValue()
    ensures ToTokens("notinvalid") == [Token(ValueToken, "notinvalid")]
  {
    NotInValidSplit();
    NotInValidHasNoOperators();
    ValueTextThenOperators("notinvalid", "");
    assert "notinvalid" + "" == "notinvalid";
  }

  lemma NotInValidSplit()
    ensures KeywordSplit("notinvalid") == [Token(ValueToken, "notinvalid")]
  {
    var v := "notinvalid";
    assert v[|v| - 2..] == "id";
    assert v[|v| - 5..] == "valid";
  }

  lemma NotInValidHasNoOperators()
    ensures NoOperatorChars("notinvalid")
  {
  }

  /** The keyword test reaches every suffix of a value: `admin` ends in the keyword `in`. */
  lemma AdminEndsInKeyword()
    ensures ToTokens("admin") == [Token(ValueToken, "adm"), Token(InToken, "in")]
  {
    ValueTextThenOperators("admin", "");
    assert "admin" + "" == "admin";
    assert EndsWith("admin", "in") && !EndsWith("admin", "notin");
    assert "admin"[..3] == "adm";
  }

  /** A value token can spell a keyword: `inin` is the value `in` and the keyword `in`. */
  lemma ValueCanSpellKeyword()
    ensures ToTokens("inin") == [Token(ValueToken, "in"), Token(InToken, "in")]
  {
    ValueTextThenOperators("inin", "");
    assert "inin" + "" == "inin";
    assert EndsWith("inin", "in") && !EndsWith("inin", "notin");
    assert "inin"[..2] == "in";
  }

  // ---------------------------------------------------------------------------
  // The whole text
  // ---------------------------------------------------------------------------

  lemma {:induction false} TextsOfChunks(chunks: seq<string>)
    ensures Texts(TokensOfChunks(chunks)) == Concat(chunks)
    ensures forall k :: 0 <= k < |TokensOfChunks(chunks)| ==> TokensOfChunks(chunks)[k].value != []
  {
    if chunks != [] {
      TextsOfChunks(chunks[1..]);
      TextsAppend(ToTokens(chunks[0]), TokensOfChunks(chunks[1..]));
      var a: seq<Token>, b: seq<Token> := ToTokens(chunks[0]), TokensOfChunks(chunks[1..]);
      forall k | 0 <= k < |a + b| ensures (a + b)[k].value != [] {
        if k >= |a| {
          assert (a + b)[k] == b[k - |a|];
        }
      }
    }
  }

  /** The token texts, in order, spell the chunks of the text: its non-whitespace characters, less a final lone one. */
  lemma TokenizedSpellsChunks(text: string)
    ensures Texts(Tokenized(text)) == Concat(Chunks(text))
    ensures forall k :: 0 <= k < |Tokenized(text)| ==> Tokenized(text)[k].value != [] && NoWhiteSpace(Tokenized(text)[k].value)
  {
    TextsOfChunks(Chunks(text));
    ChunksAreWords(text);
    NoWhiteSpaceInTokens(Chunks(text));
  }

  lemma {:induction false} NoWhiteSpaceInTokens(chunks: seq<string>)
    requires forall k :: 0 <= k < |chunks| ==> NoWhiteSpace(chunks[k])
    ensures forall k :: 0 <= k < |TokensOfChunks(chunks)| ==> NoWhiteSpace(TokensOfChunks(chunks)[k].value)
  {
    if chunks != [] {
      NoWhiteSpaceInTokens(chunks[1..]);
      var a: seq<Token>, b: seq<Token> := ToTokens(chunks[0]), TokensOfChunks(chunks[1..]);
      forall k | 0 <= k < |a| ensures NoWhiteSpace(a[k].value) {
        PieceOfCover(a, chunks[0], k);
      }
      forall k | 0 <= k < |a + b| ensures NoWhiteSpace((a + b)[k].value) {
        if k >= |a| {
          assert (a + b)[k] == b[k - |a|];
        }
      }
    }
  }

  /** Every token text is a piece of the chunk it covers. */
  lemma {:induction false} PieceOfCover(ts: seq<Token>, chunk: string, k: nat)
    requires Texts(ts) == chunk && k < |ts|
    requires NoWhiteSpace(chunk)
    ensures NoWhiteSpace(ts[k].value)
  {
    assert Texts(ts) == ts[0].value + Texts(ts[1..]);
    if k == 0 {
      forall i | 0 <= i < |ts[0].value| ensures !IsWhiteSpace(ts[0].value[i]) {
        assert ts[0].value[i] == chunk[i];
      }
    } else {
      var rest := Texts(ts[1..]);
      assert NoWhiteSpace(rest) by {
        forall i | 0 <= i < |rest| ensures !IsWhiteSpace(rest[i]) {
          assert rest[i] == chunk[|ts[0].value| + i];
        }
      }
      PieceOfCover(ts[1..], rest, k - 1);
    }
  }

  /** A one-character text has no chunk, so no tokens. */
  lemma LoneCharHasNoTokens(ch: char)
    ensures Tokenized([ch]) == []
  {
    if !IsWhiteSpace(ch) {
      SingleWord([ch]);
      assert EndsInLoneChar([ch]);
    } else {
      assert Words([ch]) == Words([]);
    }
    assert Chunks([ch]) == [];
  }
}
