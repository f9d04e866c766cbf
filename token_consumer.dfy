/**
 * The token cursor (LabelSelector/TokenConsumer.cs): a token array that is
 * never modified and one index that only moves forward.
 */
module Consumer {
  import opened Results
  import opened Tokens
  import opened Failures

  /** Reading `_tokens[i]`: the token, or the index exception past the end. */
  function TokenAt(ts: seq<Token>, i: nat): (r: Result<Token, Failure>)
    ensures r.Ok? <==> i < |ts|
  {
    if i < |ts| then Ok(ts[i]) else Err(IndexOutOfRange)
  }

  /** What EatToken(expected) returns when the cursor is at i. */
  function EatAt(ts: seq<Token>, i: nat, expected: TokenType): (r: Result<Token, Failure>)
    ensures r.Ok? <==> i < |ts| && ts[i].Kind() == expected
    ensures r.Ok? ==> r.value == ts[i]
    ensures r.Err? && i < |ts| ==> r.error == UnexpectedToken(expected, ts[i])
  {
    var token :- TokenAt(ts, i);
    if token.Kind() != expected then Err(UnexpectedToken(expected, token)) else Ok(token)
  }

  /** What EatToken<T>() returns at i: a match on the subclass; the error names the kind the dictionary gives T. */
  function EatOfAt(ts: seq<Token>, i: nat, subclass: TokenClass): (r: Result<Token, Failure>)
    ensures r.Ok? <==> i < |ts| && ts[i].subclass == subclass
    ensures r.Ok? ==> r.value == ts[i]
    ensures r.Err? && i < |ts| ==> r.error == UnexpectedToken(KindOf(subclass), ts[i])
  {
    var token :- TokenAt(ts, i);
    EnumMapMatchesConstructors(subclass);
    if token.subclass != subclass then Err(UnexpectedToken(TokenTypeEnumMap[subclass], token)) else Ok(token)
  }

  /** Eating by subclass and eating by that subclass's kind succeed and fail alike, with the same error. */
  lemma EatOfIsEat(ts: seq<Token>, i: nat, subclass: TokenClass)
    ensures EatOfAt(ts, i, subclass) == EatAt(ts, i, KindOf(subclass))
  {
    if i < |ts| {
      KindDeterminesSubclass(ts[i].subclass, subclass);
      EnumMapMatchesConstructors(subclass);
    }
  }

  class TokenConsumer {
    const tokens: seq<Token>
    var index: nat

    /** The index never passes the end of the array. */
    ghost predicate Valid()
      reads this
    {
      index <= |tokens|
    }

    constructor (tokens: seq<Token>)
      ensures Valid()
      ensures this.tokens == tokens && index == 0
    {
      this.tokens := tokens;
      index := 0;
    }

    /** At least one token is left. */
    predicate HasToken()
      reads this
    {
      |tokens| > index
    }

    /** At least two tokens are left (the index is not at the last token). */
    predicate HasNextToken()
      reads this
    {
      |tokens| - 1 > index
    }

    /** Consumes the current token if it has the expected kind; otherwise fails and stays put. */
    method EatToken(expected: TokenType) returns (r: Result<Token, Failure>)
      requires Valid()
      modifies this
      ensures Valid()
      ensures r == EatAt(tokens, old(index), expected)
      ensures index == if r.Ok? then old(index) + 1 else old(index)
    {
      if index >= |tokens| {
        return Err(IndexOutOfRange);
      }
      var token := tokens[index];
      if token.Kind() != expected {
        return Err(UnexpectedToken(expected, token));
      }
      index := index + 1;
      return Ok(token);
    }

    /** Consumes the current token if it is of the given subclass; otherwise fails and stays put. */
    method EatTokenOf(subclass: TokenClass) returns (r: Result<Token, Failure>)
      requires Valid()
      modifies this
      ensures Valid()
      ensures r == EatOfAt(tokens, old(index), subclass)
      ensures index == if r.Ok? then old(index) + 1 else old(index)
    {
      if index >= |tokens| {
        return Err(IndexOutOfRange);
      }
      var token := tokens[index];
      if token.subclass != subclass {
        var expected := TokenTypeEnumMap[subclass];
        return Err(UnexpectedToken(expected, token));
      }
      index := index + 1;
      return Ok(token);
    }

    /** The current token, without moving. */
    method PeekToken() returns (r: Result<Token, Failure>)
      ensures r.Ok? <==> index < |tokens|
      ensures r.Ok? ==> r.value == tokens[index]
      ensures r.Err? ==> r.error == IndexOutOfRange
    {
      if index >= |tokens| {
        return Err(IndexOutOfRange);
      }
      return Ok(tokens[index]);
    }
  }
}
