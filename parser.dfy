/**
 * The recursive-descent parser (LabelSelector/Parser.cs) and the array
 * syntax it builds (LabelSelector/Syntax.cs).
 *
 * The first half states, as functions of the token array and the cursor
 * index, what each parsing routine returns and where it leaves the cursor.
 * The second half is the parser itself: methods that advance a shared
 * TokenConsumer, each proved to follow its function.
 */
module Parser {
  import opened Results
  import opened Tokens
  import opened Failures
  import opened Consumer
  import opened Expressions
  import opened Tokenizer

  /** The parenthesised value list of an In or NotIn requirement: its value tokens, in order. */
  datatype ArraySyntax = ArraySyntax(values: seq<Token>)

  /** values.Select(value => value.Value) */
  function ValueTexts(ts: seq<Token>): seq<string> {
    seq(|ts|, k requires 0 <= k < |ts| => ts[k].value)
  }

  /** `[e] + rest`: one more expression yielded before the rest of the enumeration. */
  function Prefixed(yielded: seq<Expression>, rest: Enumeration): Enumeration {
    Enumeration(yielded + rest.yielded, rest.thrown)
  }

  // ---------------------------------------------------------------------------
  // What each routine returns, with the index it leaves the cursor at
  // ---------------------------------------------------------------------------

  /** ParseNotExistsExpression: `!` then a value, which is the key. */
  function NotExistsAt(ts: seq<Token>, i: nat): (r: Result<(Expression, nat), Failure>)
    ensures r.Ok? <==> i + 1 < |ts| && ts[i].Kind() == Exclamation && ts[i + 1].Kind() == Value
    ensures r.Ok? ==> r.value == (NotExists(ts[i + 1].value), i + 2)
    ensures i + 1 < |ts| && ts[i].Kind() == Exclamation && ts[i + 1].Kind() != Value ==>
              r == Err(UnexpectedToken(Value, ts[i + 1]))
  {
    var bang :- EatAt(ts, i, Exclamation);
    var key :- EatOfAt(ts, i + 1, ValueToken);
    Ok((NotExists(key.value), i + 2))
  }

  /**
   * The loop of ParseArraySyntax from index i, with the values read so far:
   * a value, then either `)` (left for the caller) or `,` and another round.
   */
  function ArrayItemsAt(ts: seq<Token>, i: nat, read: seq<Token>): (r: Result<(seq<Token>, nat), Failure>)
    decreases |ts| - i
    ensures r.Ok? ==> r.value.1 < |ts| && ts[r.value.1].Kind() == CloseParentheses
    ensures r.Ok? ==> |r.value.0| > |read| && r.value.0[..|read|] == read
    ensures r.Ok? ==> r.value.1 == i + 2 * (|r.value.0| - |read|) - 1
    ensures r.Ok? ==> forall k :: |read| <= k < |r.value.0| ==> r.value.0[k].Kind() == Value
  {
    var value :- EatOfAt(ts, i, ValueToken);
    var next :- TokenAt(ts, i + 1);
    if next.Kind() == CloseParentheses then Ok((read + [value], i + 1))
    else
      var comma :- EatAt(ts, i + 1, Comma);
      ArrayItemsAt(ts, i + 2, read + [value])
  }

  /** ParseArraySyntax: `(`, the loop, then `)`. */
  function ArrayAt(ts: seq<Token>, i: nat): (r: Result<(ArraySyntax, nat), Failure>)
    ensures r.Ok? ==> r.value.0.values != [] && r.value.1 == i + 2 * |r.value.0.values| + 1 <= |ts|
    ensures r.Ok? ==> ts[i].Kind() == OpenParentheses && ts[r.value.1 - 1].Kind() == CloseParentheses
    ensures r.Ok? ==> forall t <- r.value.0.values :: t.Kind() == Value
  {
    var open :- EatAt(ts, i, OpenParentheses);
    var items :- ArrayItemsAt(ts, i + 1, []);
    // the loop only stops in front of `)`, so eating it cannot fail
    Ok((ArraySyntax(items.0), items.1 + 1))
  }

  /** ParseInExpression: `in` and a value list after the key. */
  function InAt(ts: seq<Token>, i: nat, key: Token): (r: Result<(Expression, nat), Failure>)
    ensures r.Ok? ==> r.value.0.In? && r.value.0.key == key.value && r.value.0.values != []
    ensures r.Ok? ==> i < |ts| && ts[i].Kind() == TokenType.In && r.value.1 == i + 2 * |r.value.0.values| + 2 <= |ts|
    ensures i < |ts| && ts[i].Kind() != TokenType.In ==> r == Err(UnexpectedToken(TokenType.In, ts[i]))
  {
    var keyword :- EatAt(ts, i, TokenType.In);
    var list :- ArrayAt(ts, i + 1);
    Ok((Expression.In(key.value, ValueTexts(list.0.values)), list.1))
  }

  /** ParseNotInExpression: `notin` and a value list after the key. */
  function NotInAt(ts: seq<Token>, i: nat, key: Token): (r: Result<(Expression, nat), Failure>)
    ensures r.Ok? ==> r.value.0.NotIn? && r.value.0.key == key.value && r.value.0.values != []
    ensures r.Ok? ==> i < |ts| && ts[i].Kind() == TokenType.NotIn && r.value.1 == i + 2 * |r.value.0.values| + 2 <= |ts|
    ensures i < |ts| && ts[i].Kind() != TokenType.NotIn ==> r == Err(UnexpectedToken(TokenType.NotIn, ts[i]))
  {
    var keyword :- EatAt(ts, i, TokenType.NotIn);
    var list :- ArrayAt(ts, i + 1);
    Ok((Expression.NotIn(key.value, ValueTexts(list.0.values)), list.1))
  }

  /** The kinds ParseInFirstValueState accepts right after a key. */
  predicate IsFollower(kind: TokenType) {
    kind == TokenType.In || kind == TokenType.NotIn || kind == Comma
  }

  /**
   * ParseInFirstValueState: the key, then, only if at least two tokens are
   * left after it, a look at the next one.
   */
  function KeyRequirementAt(ts: seq<Token>, i: nat): (r: Result<(Expression, nat), Failure>)
    ensures r.Ok? ==> i < r.value.1 <= |ts|
    ensures r.Ok? ==> ts[i].Kind() == Value && r.value.0.key == ts[i].value && !r.value.0.NotExists?
    ensures r.Ok? && (r.value.0.In? || r.value.0.NotIn?) ==> r.value.0.values != []
    ensures i < |ts| && ts[i].Kind() == Value && i + 2 >= |ts| ==> r == Ok((Exists(ts[i].value), i + 1))
    ensures i + 2 < |ts| && ts[i].Kind() == Value && ts[i + 1].Kind() == Comma ==> r == Ok((Exists(ts[i].value), i + 2))
    ensures i + 2 < |ts| && ts[i].Kind() == Value && !IsFollower(ts[i + 1].Kind()) ==> r == Err(ArgumentOutOfRange)
  {
    var key :- EatOfAt(ts, i, ValueToken);
    if !(|ts| - 1 > i + 1) then Ok((Exists(key.value), i + 1))
    else
      var second := ts[i + 1];
      match second.Kind()
      case In => InAt(ts, i + 1, key)
      case NotIn => NotInAt(ts, i + 1, key)
      case Comma => Ok((Exists(key.value), i + 2))
      case _ => Err(ArgumentOutOfRange)
  }

  /**
   * The requirement loop of Parse from index i: what the enumeration yields
   * and whether it then throws.
   */
  function RequirementsFrom(ts: seq<Token>, i: nat): (r: Enumeration)
    decreases |ts| - i
    ensures forall e <- r.yielded :: (e.In? || e.NotIn?) ==> e.values != []
    ensures i >= |ts| ==> r == Enumeration([], None)
  {
    if !(|ts| > i) then Enumeration([], None)
    else
      var first := ts[i];
      match first.Kind()
      case Value =>
        (match KeyRequirementAt(ts, i)
         case Err(e) => Enumeration([], Some(e))
         case Ok(p) => Prefixed([p.0], RequirementsFrom(ts, p.1)))
      case Exclamation =>
        (match NotExistsAt(ts, i)
         case Err(e) => Enumeration([], Some(e))
         case Ok(p) => Prefixed([p.0], RequirementsFrom(ts, p.1)))
      case Comma => RequirementsFrom(ts, i + 1)
      case _ => Enumeration([], Some(NotExpectedToken(first.Kind())))
  }

  /** Parse(string): the whole text is tokenized first, then parsed. */
  function Parsed(text: string): Enumeration {
    RequirementsFrom(Tokenized(text), 0)
  }

  // ---------------------------------------------------------------------------
  // The parser over a TokenConsumer
  // ---------------------------------------------------------------------------

  /** A routine's result and final index agree with its function; on failure only the error is fixed. */
  ghost predicate Follows<T>(r: Result<T, Failure>, index: nat, spec: Result<(T, nat), Failure>) {
    match spec
    case Ok(p) => r == Ok(p.0) && index == p.1
    case Err(e) => r == Err(e)
  }

  method ParseText(text: string) returns (expressions: Enumeration)
    ensures expressions == Parsed(text)
  {
    var tokens := Tokenize(text);
    expressions := ParseTokens(tokens);
  }

  method ParseTokens(tokens: seq<Token>) returns (expressions: Enumeration)
    ensures expressions == RequirementsFrom(tokens, 0)
  {
    var consumer := new TokenConsumer(tokens);
    expressions := Parse(consumer);
  }

  /**
   * The requirement loop: a value starts a key requirement, `!` a NotExists,
   * a comma is skipped, anything else is an error.
   */
  method Parse(consumer: TokenConsumer) returns (expressions: Enumeration)
    requires consumer.Valid()
    modifies consumer
    ensures expressions == RequirementsFrom(consumer.tokens, old(consumer.index))
  {
    var yielded: seq<Expression> := [];
    while consumer.HasToken()
      invariant consumer.Valid()
      invariant RequirementsFrom(consumer.tokens, old(consumer.index))
             == Prefixed(yielded, RequirementsFrom(consumer.tokens, consumer.index))
      decreases |consumer.tokens| - consumer.index
    {
      var peeked := consumer.PeekToken();
      var firstToken := peeked.value;
      match firstToken.Kind()
      case Value =>
        var e := ParseInFirstValueState(consumer);
        if e.Err? {
          return Enumeration(yielded, Some(e.error));
        }
        yielded := yielded + [e.value];
      case Exclamation =>
        var e := ParseNotExistsExpression(consumer);
        if e.Err? {
          return Enumeration(yielded, Some(e.error));
        }
        yielded := yielded + [e.value];
      case Comma =>
        var comma := consumer.EatToken(Comma);
        assert comma.Ok?;
      case _ =>
        return Enumeration(yielded, Some(NotExpectedToken(firstToken.Kind())));
    }
    assert yielded + [] == yielded;
    return Enumeration(yielded, None);
  }

  method ParseNotExistsExpression(consumer: TokenConsumer) returns (r: Result<Expression, Failure>)
    requires consumer.Valid()
    modifies consumer
    ensures consumer.Valid()
    ensures Follows(r, consumer.index, NotExistsAt(consumer.tokens, old(consumer.index)))
  {
    var bang :- consumer.EatToken(Exclamation);
    var valueToken :- consumer.EatTokenOf(ValueToken);
    return Ok(NotExists(valueToken.value));
  }

  method ParseInFirstValueState(consumer: TokenConsumer) returns (r: Result<Expression, Failure>)
    requires consumer.Valid()
    modifies consumer
    ensures consumer.Valid()
    ensures Follows(r, consumer.index, KeyRequirementAt(consumer.tokens, old(consumer.index)))
  {
    var valueToken :- consumer.EatTokenOf(ValueToken);
    if !consumer.HasNextToken() {
      return Ok(Exists(valueToken.value));
    }
    var peeked := consumer.PeekToken();
    var secondToken := peeked.value;
    match secondToken.Kind()
    case In =>
      r := ParseInExpression(consumer, valueToken);
    case NotIn =>
      r := ParseNotInExpression(consumer, valueToken);
    case Comma =>
      var comma := consumer.EatToken(Comma);
      return Ok(Exists(valueToken.value));
    case _ =>
      return Err(ArgumentOutOfRange);
  }

  method ParseInExpression(consumer: TokenConsumer, valueToken: Token) returns (r: Result<Expression, Failure>)
    requires consumer.Valid()
    modifies consumer
    ensures consumer.Valid()
    ensures Follows(r, consumer.index, InAt(consumer.tokens, old(consumer.index), valueToken))
  {
    var keyword :- consumer.EatToken(TokenType.In);
    var arraySyntax :- ParseArraySyntax(consumer);
    return Ok(Expression.In(valueToken.value, ValueTexts(arraySyntax.values)));
  }

  method ParseNotInExpression(consumer: TokenConsumer, valueToken: Token) returns (r: Result<Expression, Failure>)
    requires consumer.Valid()
    modifies consumer
    ensures consumer.Valid()
    ensures Follows(r, consumer.index, NotInAt(consumer.tokens, old(consumer.index), valueToken))
  {
    var keyword :- consumer.EatToken(TokenType.NotIn);
    var arraySyntax :- ParseArraySyntax(consumer);
    return Ok(Expression.NotIn(valueToken.value, ValueTexts(arraySyntax.values)));
  }

  /** `(` then values separated by commas, until a `)` follows a value. */
  method ParseArraySyntax(consumer: TokenConsumer) returns (r: Result<ArraySyntax, Failure>)
    requires consumer.Valid()
    modifies consumer
    ensures consumer.Valid()
    ensures Follows(r, consumer.index, ArrayAt(consumer.tokens, old(consumer.index)))
  {
    var open :- consumer.EatToken(OpenParentheses);
    var valueTokens: seq<Token> := [];
    ghost var start := consumer.index;
    while true
      invariant consumer.Valid()
      invariant ArrayItemsAt(consumer.tokens, start, []) == ArrayItemsAt(consumer.tokens, consumer.index, valueTokens)
      decreases |consumer.tokens| - consumer.index
    {
      var valueToken :- consumer.EatTokenOf(ValueToken);
      valueTokens := valueTokens + [valueToken];
      var peeked :- consumer.PeekToken();
      if peeked.Kind() == CloseParentheses {
        break;
      }
      var comma :- consumer.EatToken(Comma);
    }
    var close := consumer.EatToken(CloseParentheses);
    return Ok(ArraySyntax(valueTokens));
  }
}
