/**
 * What the parser accepts and what it makes of it: a selector written as
 * tokens (requirements separated by commas, each In/NotIn list in
 * parentheses) parses back to exactly its requirements, and the corner
 * cases of the grammar as the code has it.
 */
module ParserProperties {
  import opened Results
  import opened Tokens
  import opened Failures
  import opened Expressions
  import opened Parser

  const CommaTok := Token(CommaToken, ",")
  const OpenTok := Token(OpenParenthesesToken, "(")
  const CloseTok := Token(CloseParenthesesToken, ")")
  const InTok := Token(InToken, "in")
  const NotInTok := Token(NotInToken, "notin")
  const BangTok := Token(ExclamationToken, "!")

  function ValueTok(text: string): Token {
    Token(ValueToken, text)
  }

  function ValueToks(texts: seq<string>): seq<Token> {
    seq(|texts|, k requires 0 <= k < |texts| => ValueTok(texts[k]))
  }

  /** `v0 , v1 , ... , vn` */
  function ItemTokens(texts: seq<string>): (r: seq<Token>)
    ensures texts != [] ==> |r| == 2 * |texts| - 1
  {
    if texts == [] then []
    else if |texts| == 1 then [ValueTok(texts[0])]
    else [ValueTok(texts[0]), CommaTok] + ItemTokens(texts[1..])
  }

  /** `( v0 , ... , vn )`; the empty list `( )` is written too, though the grammar rejects it. */
  function ListTokens(texts: seq<string>): seq<Token> {
    [OpenTok] + ItemTokens(texts) + [CloseTok]
  }

  /** A requirement the grammar can spell: In and NotIn need at least one value. */
  predicate Spellable(e: Expression) {
    (e.In? || e.NotIn?) ==> e.values != []
  }

  /** The tokens of one requirement as the grammar spells it. */
  function RequirementTokens(e: Expression): seq<Token> {
    match e
    case Exists(key) => [ValueTok(key)]
    case NotExists(key) => [BangTok, ValueTok(key)]
    case In(key, values) => [ValueTok(key), InTok] + ListTokens(values)
    case NotIn(key, values) => [ValueTok(key), NotInTok] + ListTokens(values)
  }

  /** The tokens of a selector: its requirements separated by commas. */
  function SelectorTokens(es: seq<Expression>): seq<Token> {
    if es == [] then []
    else if |es| == 1 then RequirementTokens(es[0])
    else RequirementTokens(es[0]) + [CommaTok] + SelectorTokens(es[1..])
  }

  // ---------------------------------------------------------------------------
  // Token layouts, by index
  // ---------------------------------------------------------------------------

  /** From i on, ts holds the items of texts and then the closing `)`. */
  predicate ItemsAt(ts: seq<Token>, i: nat, texts: seq<string>)
    decreases |texts|
  {
    texts != [] && i + 1 < |ts| && ts[i] == ValueTok(texts[0])
    && if |texts| == 1 then ts[i + 1] == CloseTok
       else ts[i + 1] == CommaTok && ItemsAt(ts, i + 2, texts[1..])
  }

  /** From i on, ts holds the parenthesised list of texts. */
  predicate ListAt(ts: seq<Token>, i: nat, texts: seq<string>) {
    i < |ts| && ts[i] == OpenTok && ItemsAt(ts, i + 1, texts)
  }

  /** From i on, ts holds the tokens of the requirement e. */
  predicate RequirementAt(ts: seq<Token>, i: nat, e: Expression) {
    match e
    case Exists(key) => i < |ts| && ts[i] == ValueTok(key)
    case NotExists(key) => i + 1 < |ts| && ts[i] == BangTok && ts[i + 1] == ValueTok(key)
    case In(key, values) => i + 1 < |ts| && ts[i] == ValueTok(key) && ts[i + 1] == InTok && ListAt(ts, i + 2, values)
    case NotIn(key, values) => i + 1 < |ts| && ts[i] == ValueTok(key) && ts[i + 1] == NotInTok && ListAt(ts, i + 2, values)
  }

  /** The number of tokens of a requirement. */
  function Width(e: Expression): nat {
    match e
    case Exists(_) => 1
    case NotExists(_) => 2
    case In(_, values) => 2 * |values| + 3
    case NotIn(_, values) => 2 * |values| + 3
  }

  /** What may follow a requirement ending at j: the end, or a comma and at least one more token. */
  predicate FollowedAt(ts: seq<Token>, j: nat) {
    j == |ts| || (j + 1 < |ts| && ts[j] == CommaTok)
  }

  /** Where the requirement loop goes on after a requirement ending at j. */
  function Resume(ts: seq<Token>, j: nat): nat {
    if j == |ts| then j else j + 1
  }

  /** From i on, ts holds exactly the tokens of the selector es, up to its end. */
  predicate SelectorAt(ts: seq<Token>, i: nat, es: seq<Expression>)
    decreases |es|
  {
    if es == [] then i == |ts|
    else
      var j := i + Width(es[0]);
      RequirementAt(ts, i, es[0])
      && if |es| == 1 then j == |ts|
         else j < |ts| && ts[j] == CommaTok && SelectorAt(ts, j + 1, es[1..])
  }

  // ---------------------------------------------------------------------------
  // Value lists
  // ---------------------------------------------------------------------------

  lemma TextsOfValueToks(texts: seq<string>)
    ensures ValueTexts(ValueToks(texts)) == texts
  {
    assert forall k :: 0 <= k < |texts| ==> ValueTexts(ValueToks(texts))[k] == texts[k];
  }

  lemma ValueToksCons(texts: seq<string>)
    requires texts != []
    ensures ValueToks(texts) == [ValueTok(texts[0])] + ValueToks(texts[1..])
  {
  }

  /** The array loop reads back every value of a well-formed list and stops in front of its `)`. */
  lemma {:induction false} ItemsRoundTrip(ts: seq<Token>, i: nat, read: seq<Token>, texts: seq<string>)
    requires ItemsAt(ts, i, texts)
    ensures ArrayItemsAt(ts, i, read) == Ok((read + ValueToks(texts), i + 2 * |texts| - 1))
    decreases |texts|
  {
    ValueToksCons(texts);
    if |texts| == 1 {
      assert ValueToks(texts) == [ValueTok(texts[0])];
    } else {
      ItemsRoundTrip(ts, i + 2, read + [ValueTok(texts[0])], texts[1..]);
      assert read + [ValueTok(texts[0])] + ValueToks(texts[1..]) == read + ValueToks(texts);
    }
  }

  /** A parenthesised list of values parses to exactly those values, consuming the whole list. */
  lemma ArrayRoundTrip(ts: seq<Token>, i: nat, texts: seq<string>)
    requires ListAt(ts, i, texts)
    ensures ArrayAt(ts, i) == Ok((ArraySyntax(ValueToks(texts)), i + 2 * |texts| + 1))
  {
    ItemsRoundTrip(ts, i + 1, [], texts);
  }

  // ---------------------------------------------------------------------------
  // What a value list holds, for any tokens
  // ---------------------------------------------------------------------------

  /**
   * The array loop reads the values at i, i + 2, ..., in order, each
   * followed by a comma except the last.
   */
  lemma {:induction false} ItemsReadInOrder(ts: seq<Token>, i: nat, read: seq<Token>)
    ensures var r := ArrayItemsAt(ts, i, read);
      r.Ok? ==> forall k :: |read| <= k < |r.value.0| ==>
        r.value.0[k] == ts[i + 2 * (k - |read|)]
        && (k < |r.value.0| - 1 ==> ts[i + 2 * (k - |read|) + 1].Kind() == Comma)
    decreases |ts| - i
  {
    var r := ArrayItemsAt(ts, i, read);
    if r.Ok? {
      if ts[i + 1].Kind() == CloseParentheses {
        assert r.value.0 == read + [ts[i]];
        assert (read + [ts[i]])[|read|] == ts[i];
      } else {
        var more := read + [ts[i]];
        assert ts[i + 1].Kind() == Comma;
        ItemsReadInOrder(ts, i + 2, more);
        assert r == ArrayItemsAt(ts, i + 2, more);
        forall k | |read| <= k < |r.value.0|
          ensures r.value.0[k] == ts[i + 2 * (k - |read|)]
          ensures k < |r.value.0| - 1 ==> ts[i + 2 * (k - |read|) + 1].Kind() == Comma
        {
          if k == |read| {
            assert r.value.0[..|more|] == more;
            assert r.value.0[k] == r.value.0[..|more|][k];
          } else {
            assert i + 2 + 2 * (k - |more|) == i + 2 * (k - |read|);
          }
        }
      }
    }
  }

  /** How one round of the array loop fails: no value, nothing after it, or neither `)` nor `,` after it. */
  lemma ItemsErrors(ts: seq<Token>, i: nat, read: seq<Token>)
    ensures i >= |ts| ==> ArrayItemsAt(ts, i, read) == Err(IndexOutOfRange)
    ensures i < |ts| && ts[i].Kind() != Value ==> ArrayItemsAt(ts, i, read) == Err(UnexpectedToken(Value, ts[i]))
    ensures i + 1 == |ts| && ts[i].Kind() == Value ==> ArrayItemsAt(ts, i, read) == Err(IndexOutOfRange)
    ensures i + 1 < |ts| && ts[i].Kind() == Value && ts[i + 1].Kind() != CloseParentheses && ts[i + 1].Kind() != Comma ==>
              ArrayItemsAt(ts, i, read) == Err(UnexpectedToken(Comma, ts[i + 1]))
  {
    EnumMapMatchesConstructors(ValueToken);
  }

  /** ParseArraySyntax reads the values at i + 1, i + 3, ..., with commas between, or fails on a missing `(`. */
  lemma ArrayContents(ts: seq<Token>, i: nat)
    ensures var r := ArrayAt(ts, i);
      r.Ok? ==> forall k :: 0 <= k < |r.value.0.values| ==>
        r.value.0.values[k] == ts[i + 1 + 2 * k]
        && (k < |r.value.0.values| - 1 ==> ts[i + 2 + 2 * k].Kind() == Comma)
    ensures i < |ts| && ts[i].Kind() != OpenParentheses ==> ArrayAt(ts, i) == Err(UnexpectedToken(OpenParentheses, ts[i]))
  {
    var r := ArrayAt(ts, i);
    if r.Ok? {
      ItemsFromStart(ts, i + 1);
      assert r.value.0.values == ArrayItemsAt(ts, i + 1, []).value.0;
    }
  }

  /** The loop started with nothing read: the values are the tokens at j, j + 2, ... */
  lemma ItemsFromStart(ts: seq<Token>, j: nat)
    ensures var r := ArrayItemsAt(ts, j, []);
      r.Ok? ==> forall k :: 0 <= k < |r.value.0| ==>
        r.value.0[k] == ts[j + 2 * k] && (k < |r.value.0| - 1 ==> ts[j + 1 + 2 * k].Kind() == Comma)
  {
    var r := ArrayItemsAt(ts, j, []);
    ItemsReadInOrder(ts, j, []);
    if r.Ok? {
      forall k | 0 <= k < |r.value.0|
        ensures r.value.0[k] == ts[j + 2 * k]
        ensures k < |r.value.0| - 1 ==> ts[j + 1 + 2 * k].Kind() == Comma
      {
        var none: seq<Token> := [];
        assert j + 2 * (k - |none|) == j + 2 * k;
      }
    }
  }

  /**
   * The values of a parsed In or NotIn requirement are the texts of the
   * value tokens between `(` and `)`, in order, with commas between them.
   */
  lemma KeywordListValues(ts: seq<Token>, i: nat, key: Token)
    ensures var r := InAt(ts, i, key);
      r.Ok? ==> ListRead(ts, i + 1, r.value.0.values, r.value.1)
    ensures var r := NotInAt(ts, i, key);
      r.Ok? ==> ListRead(ts, i + 1, r.value.0.values, r.value.1)
  {
    ArrayRead(ts, i + 1);
  }

  /** A parsed value list, read back as texts. */
  lemma ArrayRead(ts: seq<Token>, i: nat)
    ensures var r := ArrayAt(ts, i);
      r.Ok? ==> ListRead(ts, i, ValueTexts(r.value.0.values), r.value.1)
  {
    var r := ArrayAt(ts, i);
    if r.Ok? {
      var values := r.value.0.values;
      var texts := ValueTexts(values);
      ArrayContents(ts, i);
      forall k | 0 <= k < |texts|
        ensures ts[i + 1 + 2 * k].Kind() == Value && texts[k] == ts[i + 1 + 2 * k].value
        ensures k < |texts| - 1 ==> ts[i + 2 + 2 * k].Kind() == Comma
      {
        assert values[k] in values;
      }
    }
  }

  /** From i to end, ts holds `(`, the value tokens spelling texts separated by commas, and `)`. */
  predicate ListRead(ts: seq<Token>, i: nat, texts: seq<string>, end: nat) {
    i < end <= |ts| && ts[i].Kind() == OpenParentheses && ts[end - 1].Kind() == CloseParentheses
    && end == i + 2 * |texts| + 1
    && forall k :: 0 <= k < |texts| ==>
         ts[i + 1 + 2 * k].Kind() == Value && texts[k] == ts[i + 1 + 2 * k].value
         && (k < |texts| - 1 ==> ts[i + 2 + 2 * k].Kind() == Comma)
  }

  /**
   * A requirement cannot start with `(`, `)`, `=`, `!=`, `in` or `notin`:
   * the loop ends with the not-expected-token error and yields nothing more.
   */
  lemma NotExpectedFirst(ts: seq<Token>, i: nat)
    requires i < |ts| && ts[i].Kind() != Value && ts[i].Kind() != Exclamation && ts[i].Kind() != Comma
    ensures RequirementsFrom(ts, i) == Enumeration([], Some(NotExpectedToken(ts[i].Kind())))
  {
  }

  // ---------------------------------------------------------------------------
  // Whole selectors
  // ---------------------------------------------------------------------------

  /** A keyword and a list after a key: the list requirement, ending where the list ends. */
  lemma KeywordListStep(ts: seq<Token>, j: nat, key: Token, texts: seq<string>)
    requires j < |ts| && ListAt(ts, j + 1, texts)
    ensures ts[j] == InTok ==> InAt(ts, j, key) == Ok((Expression.In(key.value, texts), j + 2 * |texts| + 2))
    ensures ts[j] == NotInTok ==> NotInAt(ts, j, key) == Ok((Expression.NotIn(key.value, texts), j + 2 * |texts| + 2))
  {
    ArrayRoundTrip(ts, j + 1, texts);
    TextsOfValueToks(texts);
  }

  /** After a key and with more to come, `in` and `notin` hand over to the list. */
  lemma KeyThenKeyword(ts: seq<Token>, i: nat)
    requires i + 2 < |ts| && ts[i].Kind() == Value
    ensures ts[i + 1].Kind() == TokenType.In ==> KeyRequirementAt(ts, i) == InAt(ts, i + 1, ts[i])
    ensures ts[i + 1].Kind() == TokenType.NotIn ==> KeyRequirementAt(ts, i) == NotInAt(ts, i + 1, ts[i])
  {
  }

  /** A list requirement: the key, the keyword, and the list. */
  lemma ListRequirementStep(ts: seq<Token>, i: nat, e: Expression)
    requires (e.In? || e.NotIn?) && RequirementAt(ts, i, e)
    ensures KeyRequirementAt(ts, i) == Ok((e, i + Width(e)))
  {
    KeyThenKeyword(ts, i);
    KeywordListStep(ts, i + 1, ts[i], e.values);
  }

  /** A key requirement that ends at j: the requirement loop yields it and goes on from j. */
  lemma KeyStep(ts: seq<Token>, i: nat, e: Expression, j: nat)
    requires i < |ts| && ts[i].Kind() == Value
    requires KeyRequirementAt(ts, i) == Ok((e, j))
    ensures RequirementsFrom(ts, i) == Prefixed([e], RequirementsFrom(ts, j))
  {
  }

  /** A comma where a requirement could start is skipped. */
  lemma CommaSkipped(ts: seq<Token>, j: nat)
    requires j < |ts| && ts[j].Kind() == Comma
    ensures RequirementsFrom(ts, j) == RequirementsFrom(ts, j + 1)
  {
  }

  /** What may follow a requirement: nothing, or a comma that the requirement loop skips. */
  lemma SeparatorSkipped(ts: seq<Token>, j: nat)
    requires FollowedAt(ts, j)
    ensures RequirementsFrom(ts, j) == RequirementsFrom(ts, Resume(ts, j))
  {
    if j < |ts| {
      CommaSkipped(ts, j);
    }
  }

  lemma ExistsStep(ts: seq<Token>, i: nat, key: string)
    requires RequirementAt(ts, i, Exists(key)) && FollowedAt(ts, i + 1)
    ensures RequirementsFrom(ts, i) == Prefixed([Exists(key)], RequirementsFrom(ts, Resume(ts, i + 1)))
  {
    KeyStep(ts, i, Exists(key), Resume(ts, i + 1));
  }

  lemma NotExistsStep(ts: seq<Token>, i: nat, key: string)
    requires RequirementAt(ts, i, NotExists(key)) && FollowedAt(ts, i + 2)
    ensures RequirementsFrom(ts, i) == Prefixed([NotExists(key)], RequirementsFrom(ts, Resume(ts, i + 2)))
  {
    SeparatorSkipped(ts, i + 2);
  }

  lemma ListStep(ts: seq<Token>, i: nat, e: Expression)
    requires (e.In? || e.NotIn?) && RequirementAt(ts, i, e) && FollowedAt(ts, i + Width(e))
    ensures RequirementsFrom(ts, i) == Prefixed([e], RequirementsFrom(ts, Resume(ts, i + Width(e))))
  {
    ListRequirementStep(ts, i, e);
    calc {
      RequirementsFrom(ts, i);
      { KeyStep(ts, i, e, i + Width(e)); }
      Prefixed([e], RequirementsFrom(ts, i + Width(e)));
      { SeparatorSkipped(ts, i + Width(e)); }
      Prefixed([e], RequirementsFrom(ts, Resume(ts, i + Width(e))));
    }
  }

  /** One requirement and what may follow it: it is yielded, then parsing goes on past the comma. */
  lemma RequirementStep(ts: seq<Token>, i: nat, e: Expression)
    requires RequirementAt(ts, i, e) && FollowedAt(ts, i + Width(e))
    ensures RequirementsFrom(ts, i) == Prefixed([e], RequirementsFrom(ts, Resume(ts, i + Width(e))))
  {
    match e
    case Exists(key) => ExistsStep(ts, i, key);
    case NotExists(key) => NotExistsStep(ts, i, key);
    case In(_, _) => ListStep(ts, i, e);
    case NotIn(_, _) => ListStep(ts, i, e);
  }

  /** A longer selector: its first requirement, a comma after it, and the rest of the selector after that. */
  lemma SelectorAtParts(ts: seq<Token>, i: nat, es: seq<Expression>)
    requires |es| >= 2 && SelectorAt(ts, i, es)
    ensures RequirementAt(ts, i, es[0]) && FollowedAt(ts, i + Width(es[0]))
    ensures Resume(ts, i + Width(es[0])) == i + Width(es[0]) + 1
    ensures SelectorAt(ts, i + Width(es[0]) + 1, es[1..])
  {
    assert i + Width(es[0]) + 1 < |ts| by {
      assert es[1..] != [];
      var j := i + Width(es[0]) + 1;
      match es[1]
      case Exists(_) => assert RequirementAt(ts, j, es[1..][0]);
      case NotExists(_) => assert RequirementAt(ts, j, es[1..][0]);
      case In(_, _) => assert RequirementAt(ts, j, es[1..][0]);
      case NotIn(_, _) => assert RequirementAt(ts, j, es[1..][0]);
    }
  }

  /** A one-requirement selector: the requirement, then the end. */
  lemma SelectorAtLast(ts: seq<Token>, i: nat, es: seq<Expression>)
    requires |es| == 1 && SelectorAt(ts, i, es)
    ensures RequirementAt(ts, i, es[0]) && FollowedAt(ts, i + Width(es[0]))
    ensures Resume(ts, i + Width(es[0])) == |ts|
  {
  }

  lemma PrefixedCons(es: seq<Expression>)
    requires es != []
    ensures Prefixed([es[0]], Enumeration(es[1..], None)) == Enumeration(es, None)
  {
    assert [es[0]] + es[1..] == es;
  }

  /** Round trip: tokens laid out as a selector parse back to exactly its requirements, with no error. */
  lemma {:induction false} SelectorRoundTrip(ts: seq<Token>, i: nat, es: seq<Expression>)
    requires SelectorAt(ts, i, es)
    ensures RequirementsFrom(ts, i) == Enumeration(es, None)
    decreases |es|
  {
    if es == [] {
    } else if |es| == 1 {
      SelectorAtLast(ts, i, es);
      calc {
        RequirementsFrom(ts, i);
        { RequirementStep(ts, i, es[0]); }
        Prefixed([es[0]], RequirementsFrom(ts, |ts|));
        Prefixed([es[0]], Enumeration(es[1..], None));
        { PrefixedCons(es); }
        Enumeration(es, None);
      }
    } else {
      var j := i + Width(es[0]) + 1;
      SelectorAtParts(ts, i, es);
      calc {
        RequirementsFrom(ts, i);
        { RequirementStep(ts, i, es[0]); }
        Prefixed([es[0]], RequirementsFrom(ts, j));
        { SelectorRoundTrip(ts, j, es[1..]); }
        Prefixed([es[0]], Enumeration(es[1..], None));
        { PrefixedCons(es); }
        Enumeration(es, None);
      }
    }
  }

  /** Commas before a selector (stray, repeated) are skipped. */
  lemma {:induction false} LeadingCommasSkipped(ts: seq<Token>, i: nat, n: nat, es: seq<Expression>)
    requires i + n <= |ts|
    requires forall k :: i <= k < i + n ==> ts[k] == CommaTok
    requires SelectorAt(ts, i + n, es)
    ensures RequirementsFrom(ts, i) == Enumeration(es, None)
    decreases n
  {
    if n == 0 {
      SelectorRoundTrip(ts, i, es);
    } else {
      CommaSkipped(ts, i);
      LeadingCommasSkipped(ts, i + 1, n - 1, es);
    }
  }

  // ---------------------------------------------------------------------------
  // The layouts of the rendered tokens
  // ---------------------------------------------------------------------------

  lemma AppendAssoc(a: seq<Token>, b: seq<Token>, c: seq<Token>)
    ensures a + b + c == a + (b + c)
  {
  }

  /** Two known tokens at i, then the rest from i + 2 on. */
  lemma TwoAt(ts: seq<Token>, i: nat, a: Token, b: Token, rest: seq<Token>)
    requires i <= |ts| && ts[i..] == [a, b] + rest
    ensures i + 2 <= |ts| && ts[i] == a && ts[i + 1] == b && ts[i + 2..] == rest
  {
    assert ts[i] == ts[i..][0];
    assert ts[i + 1] == ts[i..][1];
    assert ts[i + 2..] == ts[i..][2..];
  }

  /** One known token at i, then the rest from i + 1 on. */
  lemma OneAt(ts: seq<Token>, i: nat, a: Token, rest: seq<Token>)
    requires i <= |ts| && ts[i..] == [a] + rest
    ensures i + 1 <= |ts| && ts[i] == a && ts[i + 1..] == rest
  {
    assert ts[i] == ts[i..][0];
    assert ts[i + 1..] == ts[i..][1..];
  }

  lemma DropPrefix(ts: seq<Token>, i: nat, head: seq<Token>, rest: seq<Token>)
    requires i <= |ts| && ts[i..] == head + rest
    ensures i + |head| <= |ts| && ts[i + |head|..] == rest
  {
    assert ts[i + |head|..] == ts[i..][|head|..];
  }

  lemma ItemTokensCons(texts: seq<string>, after: seq<Token>)
    requires |texts| > 1
    ensures ItemTokens(texts) + after == [ValueTok(texts[0]), CommaTok] + (ItemTokens(texts[1..]) + after)
  {
    var tail := ItemTokens(texts[1..]);
    assert ItemTokens(texts) == [ValueTok(texts[0]), CommaTok] + tail;
    AppendAssoc([ValueTok(texts[0]), CommaTok], tail, after);
  }

  lemma LastItemLayout(ts: seq<Token>, i: nat, texts: seq<string>, rest: seq<Token>)
    requires |texts| == 1 && i <= |ts|
    requires ts[i..] == ItemTokens(texts) + ([CloseTok] + rest)
    ensures ItemsAt(ts, i, texts) && ts[i + 2..] == rest
  {
    AppendAssoc([ValueTok(texts[0])], [CloseTok], rest);
    TwoAt(ts, i, ValueTok(texts[0]), CloseTok, rest);
  }

  lemma MoreItemsLayout(ts: seq<Token>, i: nat, texts: seq<string>, rest: seq<Token>)
    requires |texts| > 1 && i <= |ts|
    requires ts[i..] == ItemTokens(texts) + ([CloseTok] + rest)
    ensures i + 2 <= |ts| && ts[i] == ValueTok(texts[0]) && ts[i + 1] == CommaTok
    ensures ts[i + 2..] == ItemTokens(texts[1..]) + ([CloseTok] + rest)
  {
    ItemTokensCons(texts, [CloseTok] + rest);
    TwoAt(ts, i, ValueTok(texts[0]), CommaTok, ItemTokens(texts[1..]) + ([CloseTok] + rest));
  }

  /** The rendered items of a list are laid out as the array loop reads them. */
  lemma {:induction false} ItemsLayout(ts: seq<Token>, i: nat, texts: seq<string>, rest: seq<Token>)
    requires texts != [] && i <= |ts|
    requires ts[i..] == ItemTokens(texts) + ([CloseTok] + rest)
    ensures ItemsAt(ts, i, texts)
    ensures i + 2 * |texts| <= |ts| && ts[i + 2 * |texts|..] == rest
    decreases |texts|
  {
    if |texts| == 1 {
      LastItemLayout(ts, i, texts, rest);
    } else {
      MoreItemsLayout(ts, i, texts, rest);
      ItemsLayout(ts, i + 2, texts[1..], rest);
    }
  }

  lemma ListLayout(ts: seq<Token>, i: nat, texts: seq<string>, rest: seq<Token>)
    requires texts != [] && i <= |ts|
    requires ts[i..] == ListTokens(texts) + rest
    ensures ListAt(ts, i, texts)
    ensures i + 2 * |texts| + 1 <= |ts| && ts[i + 2 * |texts| + 1..] == rest
  {
    var items := ItemTokens(texts);
    assert ListTokens(texts) + rest == [OpenTok] + (items + ([CloseTok] + rest)) by {
      AppendAssoc([OpenTok] + items, [CloseTok], rest);
      AppendAssoc([OpenTok], items, [CloseTok] + rest);
    }
    OneAt(ts, i, OpenTok, items + ([CloseTok] + rest));
    ItemsLayout(ts, i + 1, texts, rest);
  }

  lemma KeywordListLayout(ts: seq<Token>, i: nat, key: string, keyword: Token, texts: seq<string>, rest: seq<Token>)
    requires texts != [] && i + 2 <= |ts| && ts[i] == ValueTok(key) && ts[i + 1] == keyword
    requires ts[i + 2..] == ListTokens(texts) + rest
    ensures i + 1 < |ts| && ts[i] == ValueTok(key) && ts[i + 1] == keyword && ListAt(ts, i + 2, texts)
    ensures ts[i + 2 * |texts| + 3..] == rest
  {
    ListLayout(ts, i + 2, texts, rest);
  }

  lemma BareKeyLayout(ts: seq<Token>, i: nat, e: Expression, rest: seq<Token>)
    requires e.Exists? && i <= |ts| && ts[i..] == RequirementTokens(e) + rest
    ensures RequirementAt(ts, i, e)
    ensures i + Width(e) <= |ts| && ts[i + Width(e)..] == rest
  {
    OneAt(ts, i, ValueTok(e.key), rest);
  }

  lemma NegatedKeyLayout(ts: seq<Token>, i: nat, e: Expression, rest: seq<Token>)
    requires e.NotExists? && i <= |ts| && ts[i..] == RequirementTokens(e) + rest
    ensures RequirementAt(ts, i, e)
    ensures i + Width(e) <= |ts| && ts[i + Width(e)..] == rest
  {
    TwoAt(ts, i, BangTok, ValueTok(e.key), rest);
  }

  lemma ListRequirementLayout(ts: seq<Token>, i: nat, e: Expression, rest: seq<Token>)
    requires (e.In? || e.NotIn?) && Spellable(e)
    requires i + 2 <= |ts| && ts[i] == ValueTok(e.key) && ts[i + 1] == (if e.In? then InTok else NotInTok)
    requires ts[i + 2..] == ListTokens(e.values) + rest
    ensures RequirementAt(ts, i, e)
    ensures i + Width(e) <= |ts| && ts[i + Width(e)..] == rest
  {
    KeywordListLayout(ts, i, e.key, if e.In? then InTok else NotInTok, e.values, rest);
  }

  /** The key and the keyword of a list requirement, then its list. */
  lemma KeyKeywordAt(ts: seq<Token>, i: nat, e: Expression, rest: seq<Token>)
    requires e.In? || e.NotIn?
    requires i <= |ts| && ts[i..] == RequirementTokens(e) + rest
    ensures i + 2 <= |ts| && ts[i] == ValueTok(e.key) && ts[i + 1] == (if e.In? then InTok else NotInTok)
    ensures ts[i + 2..] == ListTokens(e.values) + rest
  {
    var keyword := if e.In? then InTok else NotInTok;
    AppendAssoc([ValueTok(e.key), keyword], ListTokens(e.values), rest);
    TwoAt(ts, i, ValueTok(e.key), keyword, ListTokens(e.values) + rest);
  }

  /** The rendered tokens of a requirement are laid out as the parser reads them. */
  lemma RequirementLayout(ts: seq<Token>, i: nat, e: Expression, rest: seq<Token>)
    requires Spellable(e) && i <= |ts|
    requires ts[i..] == RequirementTokens(e) + rest
    ensures RequirementAt(ts, i, e)
    ensures i + Width(e) <= |ts| && ts[i + Width(e)..] == rest
  {
    if e.Exists? {
      BareKeyLayout(ts, i, e, rest);
    } else if e.NotExists? {
      NegatedKeyLayout(ts, i, e, rest);
    } else {
      KeyKeywordAt(ts, i, e, rest);
      ListRequirementLayout(ts, i, e, rest);
    }
  }

  lemma NonEmptySelector(es: seq<Expression>)
    requires es != []
    ensures SelectorTokens(es) != []
  {
    assert |RequirementTokens(es[0])| > 0;
  }

  lemma SelectorTokensSplit(es: seq<Expression>)
    requires |es| >= 2
    ensures SelectorTokens(es) == RequirementTokens(es[0]) + ([CommaTok] + SelectorTokens(es[1..]))
  {
    AppendAssoc(RequirementTokens(es[0]), [CommaTok], SelectorTokens(es[1..]));
  }

  /** The rendered tokens of a one-requirement selector. */
  lemma LastRequirementLayout(ts: seq<Token>, i: nat, es: seq<Expression>)
    requires |es| == 1 && Spellable(es[0])
    requires i <= |ts| && ts[i..] == SelectorTokens(es)
    ensures RequirementAt(ts, i, es[0]) && i + Width(es[0]) == |ts|
  {
    assert ts[i..] == RequirementTokens(es[0]) + [];
    RequirementLayout(ts, i, es[0], []);
  }

  /** The rendered tokens of a longer selector: its first requirement, a comma, and the rest. */
  lemma FirstRequirementLayout(ts: seq<Token>, i: nat, e: Expression, tail: seq<Token>)
    requires Spellable(e)
    requires i <= |ts| && ts[i..] == RequirementTokens(e) + ([CommaTok] + tail)
    ensures RequirementAt(ts, i, e)
    ensures i + Width(e) < |ts| && ts[i + Width(e)] == CommaTok
    ensures ts[i + Width(e) + 1..] == tail
  {
    var j := i + Width(e);
    RequirementLayout(ts, i, e, [CommaTok] + tail);
    assert j <= |ts| && ts[j..] == [CommaTok] + tail;
    OneAt(ts, j, CommaTok, tail);
  }

  /** A requirement, a comma, and a selector after it make a longer selector. */
  lemma SelectorAtCons(ts: seq<Token>, i: nat, es: seq<Expression>)
    requires |es| >= 2 && RequirementAt(ts, i, es[0])
    requires i + Width(es[0]) < |ts| && ts[i + Width(es[0])] == CommaTok
    requires SelectorAt(ts, i + Width(es[0]) + 1, es[1..])
    ensures SelectorAt(ts, i, es)
  {
  }

  /** Every requirement of a spellable selector is spellable, the first and the rest alike. */
  lemma SpellableParts(es: seq<Expression>)
    requires es != [] && forall e <- es :: Spellable(e)
    ensures Spellable(es[0]) && forall e <- es[1..] :: Spellable(e)
  {
    assert es[0] in es;
    assert forall e <- es[1..] :: e in es;
  }

  lemma EmptyLayout(ts: seq<Token>, i: nat)
    requires i <= |ts| && ts[i..] == SelectorTokens([])
    ensures SelectorAt(ts, i, [])
  {
    assert |ts[i..]| == 0;
  }

  lemma SingleLayout(ts: seq<Token>, i: nat, es: seq<Expression>)
    requires |es| == 1 && Spellable(es[0])
    requires i <= |ts| && ts[i..] == SelectorTokens(es)
    ensures SelectorAt(ts, i, es)
  {
    LastRequirementLayout(ts, i, es);
  }

  /** The rendered tokens of a selector are laid out as the parser reads them. */
  lemma {:induction false} SelectorLayout(ts: seq<Token>, i: nat, es: seq<Expression>)
    requires forall e <- es :: Spellable(e)
    requires i <= |ts| && ts[i..] == SelectorTokens(es)
    ensures SelectorAt(ts, i, es)
    decreases |es|, 1
  {
    if es == [] {
      EmptyLayout(ts, i);
    } else {
      SpellableParts(es);
      if |es| == 1 {
        SingleLayout(ts, i, es);
      } else {
        SelectorTokensSplit(es);
        FirstRequirementLayout(ts, i, es[0], SelectorTokens(es[1..]));
        TailLayout(ts, i, es);
      }
    }
  }

  /** A longer selector: its first requirement and a comma in place, then the rest laid out in turn. */
  lemma {:induction false} TailLayout(ts: seq<Token>, i: nat, es: seq<Expression>)
    requires |es| >= 2 && forall e <- es[1..] :: Spellable(e)
    requires RequirementAt(ts, i, es[0]) && i + Width(es[0]) < |ts| && ts[i + Width(es[0])] == CommaTok
    requires ts[i + Width(es[0]) + 1..] == SelectorTokens(es[1..])
    ensures SelectorAt(ts, i, es)
    decreases |es|, 0
  {
    SelectorLayout(ts, i + Width(es[0]) + 1, es[1..]);
    SelectorAtCons(ts, i, es);
  }


  /** Selector parsing from the start of a token array: the rendered tokens parse back to the selector. */
  lemma ParseSelectorTokens(es: seq<Expression>)
    requires forall e <- es :: Spellable(e)
    ensures RequirementsFrom(SelectorTokens(es), 0) == Enumeration(es, None)
  {
    var ts := SelectorTokens(es);
    assert ts[0..] == ts;
    SelectorLayout(ts, 0, es);
    SelectorRoundTrip(ts, 0, es);
  }

  // ---------------------------------------------------------------------------
  // Corner cases of the grammar as written
  // ---------------------------------------------------------------------------

  /** Two bare keys with nothing after them: too few tokens to look ahead, so two Exists requirements. */
  lemma TwoKeysAreTwoExists(a: string, b: string)
    ensures RequirementsFrom([ValueTok(a), ValueTok(b)], 0) == Enumeration([Exists(a), Exists(b)], None)
  {
    var ts := [ValueTok(a), ValueTok(b)];
    assert KeyRequirementAt(ts, 0) == Ok((Exists(a), 1));
    assert KeyRequirementAt(ts, 1) == Ok((Exists(b), 2));
  }

  /** Three bare keys: the look-ahead sees a Value after the first key and fails before yielding anything. */
  lemma ThreeKeysFail(a: string, b: string, c: string)
    ensures RequirementsFrom([ValueTok(a), ValueTok(b), ValueTok(c)], 0)
         == Enumeration([], Some(ArgumentOutOfRange))
  {
  }

  /** There is no rule for `=` or `!=`: a key followed by either, then a value, fails. */
  lemma EqualityIsRejected(key: string, value: string, operator: Token)
    requires operator.Kind() == Equal || operator.Kind() == ExclamationEqual
    ensures RequirementsFrom([ValueTok(key), operator, ValueTok(value)], 0)
         == Enumeration([], Some(ArgumentOutOfRange))
  {
    var ts := [ValueTok(key), operator, ValueTok(value)];
    assert !IsFollower(ts[1].Kind());
  }

  /** A list may not end in a comma: the loop expects another value and finds `)`. */
  lemma TrailingCommaInList(key: string, value: string)
    ensures RequirementsFrom([ValueTok(key), InTok, OpenTok, ValueTok(value), CommaTok, CloseTok], 0)
         == Enumeration([], Some(UnexpectedToken(Value, CloseTok)))
  {
    var ts := [ValueTok(key), InTok, OpenTok, ValueTok(value), CommaTok, CloseTok];
    assert ArrayItemsAt(ts, 5, [ValueTok(value)]) == Err(UnexpectedToken(Value, CloseTok));
    assert ArrayItemsAt(ts, 3, []) == Err(UnexpectedToken(Value, CloseTok));
    assert ArrayAt(ts, 2) == Err(UnexpectedToken(Value, CloseTok));
    assert KeyRequirementAt(ts, 0) == Err(UnexpectedToken(Value, CloseTok));
  }

  /** A list that is never closed runs out of tokens. */
  lemma UnclosedList(key: string, value: string)
    ensures RequirementsFrom([ValueTok(key), InTok, OpenTok, ValueTok(value)], 0)
         == Enumeration([], Some(IndexOutOfRange))
  {
    var ts := [ValueTok(key), InTok, OpenTok, ValueTok(value)];
    assert ArrayItemsAt(ts, 3, []) == Err(IndexOutOfRange);
  }

  /** An error ends the enumeration but not what came before it: earlier requirements are still yielded. */
  lemma ErrorAfterRequirement(a: string, b: string, c: string, d: string)
    ensures RequirementsFrom([ValueTok(a), CommaTok, ValueTok(b), ValueTok(c), ValueTok(d)], 0)
         == Enumeration([Exists(a)], Some(ArgumentOutOfRange))
  {
    var ts := [ValueTok(a), CommaTok, ValueTok(b), ValueTok(c), ValueTok(d)];
    assert KeyRequirementAt(ts, 0) == Ok((Exists(a), 2));
    assert KeyRequirementAt(ts, 2) == Err(ArgumentOutOfRange);
  }
}
