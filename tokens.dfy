/**
 * Tokens of a label selector (LabelSelector/Tokenizer/TokenType.cs and
 * LabelSelector/Tokenizer/Token.cs).
 *
 * The abstract class Token has nine subclasses, one per token kind; a token
 * holds its kind and the text it was cut from. Both fields are readonly, so a
 * token is a value here.
 */
module Tokens {
  import opened Results

  /** The token kinds, in the order the enumeration declares them. */
  datatype TokenType =
    | Unknown
    | Value
    | OpenParentheses
    | CloseParentheses
    | Equal
    | ExclamationEqual
    | In
    | NotIn
    | Exclamation
    | Comma

  /** The nine concrete subclasses of Token. */
  datatype TokenClass =
    | ValueToken
    | OpenParenthesesToken
    | CloseParenthesesToken
    | EqualToken
    | ExclamationEqualToken
    | InToken
    | NotInToken
    | ExclamationToken
    | CommaToken

  /** The kind each subclass constructor passes to the base constructor. */
  function KindOf(c: TokenClass): TokenType {
    match c
    case ValueToken => Value
    case OpenParenthesesToken => OpenParentheses
    case CloseParenthesesToken => CloseParentheses
    case EqualToken => Equal
    case ExclamationEqualToken => ExclamationEqual
    case InToken => In
    case NotInToken => NotIn
    case ExclamationToken => Exclamation
    case CommaToken => Comma
  }

  /** A token: its subclass and its text. */
  datatype Token = Token(subclass: TokenClass, value: string) {
    /** The readonly TokenType field, as fixed by the subclass constructor. */
    function Kind(): TokenType {
      KindOf(subclass)
    }
  }

  /** The static dictionary from subclass to kind. */
  const TokenTypeEnumMap: map<TokenClass, TokenType> := map[
    ValueToken := Value,
    OpenParenthesesToken := OpenParentheses,
    CloseParenthesesToken := CloseParentheses,
    EqualToken := Equal,
    ExclamationEqualToken := ExclamationEqual,
    InToken := In,
    NotInToken := NotIn,
    ExclamationToken := Exclamation,
    CommaToken := Comma
  ]

  /**
   * The factory: one subclass per kind; Unknown is out of range and the
   * error carries the rejected kind.
   */
  function NewToken(tokenType: TokenType, value: string): (r: Result<Token, TokenType>)
    ensures r.Ok? <==> tokenType != Unknown
    ensures r.Ok? ==> r.value.Kind() == tokenType && r.value.value == value
    ensures r.Err? ==> r.error == tokenType
  {
    match tokenType
    case Value => Ok(Token(ValueToken, value))
    case OpenParentheses => Ok(Token(OpenParenthesesToken, value))
    case CloseParentheses => Ok(Token(CloseParenthesesToken, value))
    case Equal => Ok(Token(EqualToken, value))
    case ExclamationEqual => Ok(Token(ExclamationEqualToken, value))
    case In => Ok(Token(InToken, value))
    case NotIn => Ok(Token(NotInToken, value))
    case Exclamation => Ok(Token(ExclamationToken, value))
    case Comma => Ok(Token(CommaToken, value))
    case Unknown => Err(tokenType)
  }

  /** The dictionary covers every subclass and agrees with each subclass constructor. */
  lemma EnumMapMatchesConstructors(c: TokenClass)
    ensures c in TokenTypeEnumMap
    ensures TokenTypeEnumMap[c] == KindOf(c)
    ensures TokenTypeEnumMap[c] != Unknown
  {
  }

  /** No two subclasses share a kind, so a kind test and a subclass test agree. */
  lemma KindDeterminesSubclass(c: TokenClass, d: TokenClass)
    ensures KindOf(c) == KindOf(d) <==> c == d
  {
  }

  /** The factory builds, for a subclass's kind, exactly a token of that subclass. */
  lemma NewTokenInvertsEnumMap(c: TokenClass, value: string)
    ensures NewToken(TokenTypeEnumMap[c], value) == Ok(Token(c, value))
  {
  }
}
