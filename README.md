# LabelSelector — a verified model of the selector tokenizer, parser and evaluator

LabelSelector evaluates Kubernetes-style label selectors against a set of
labels. A selector such as `environment in (production, qa), !tier` is
processed in three stages:

1. The tokenizer cuts the text into whitespace-free chunks. It then cuts each
   chunk into tokens. Coexist operators (`(`, `)`, `,`, `=`, `!=`, `!`) are
   tried first. The monopoly keywords (`in`, `notin`) come next. Value text is
   the fallback.
2. The recursive-descent parser reads the tokens through a `TokenConsumer`
   cursor. It lazily yields one requirement per clause: `In`, `NotIn`,
   `Exists` or `NotExists`.
3. `LabelSelectorTester.Test` requires every yielded requirement to hold for
   the labels.

A second front end takes a decoded JSON record `{operator, key, values}`. It
dispatches on the operator, compared case-insensitively, and yields exactly
one requirement.

The model is written in Dafny, one module per part of the program:

- `Tokens`: the token kinds, the nine token subclasses and the `NewToken`
  factory.
- `Consumer`: the cursor, as a class with a `tokens` sequence and a mutable
  `index`.
- `Tokenizer`: the chunk split, as a loop method, and the recursive
  `ToTokens`.
- `Parser`: specification functions over `(tokens, index)`, and the parsing
  methods that advance a shared `TokenConsumer`. Each method is proved to
  follow its function.
- `Expressions` and `Tester`: requirement evaluation, and the lazy `All` over
  the yielded requirements.
- `JsonExpressions`: the operator dispatch of the JSON front end.

Exceptions are values. A `Failure` records which exception the code would
throw.

A lazily enumerated `IEnumerable<IExpression>` is modelled as an
`Enumeration`. It holds the requirements yielded, in order, and the exception
thrown after the last of them, if any. Evaluation therefore stops at the
first false requirement. It meets a parse error only when every requirement
before it held.

Three modules hold the properties:

- `TokenizerProperties`: what the tokens of a chunk are.
- `ParserProperties`: every well-formed token sequence parses back to its
  requirements, and the grammar's corner cases.
- `SelectorText`: a selector written the usual way round-trips through
  `Parse(string)`, and `Test(labels, string)` is the conjunction of its
  requirements.

`Scenarios` states the selectors of the repository's tests for every label
set.

## Model

| member | source | states |
|---|---|---|
| Tokens.NewToken | LabelSelector/Tokenizer/Token.cs:29-53 | A token is built exactly when the kind is not `Unknown`. It has that kind and the given text. `Unknown` is the out-of-range error, which names the rejected kind. |
| Tokens.EnumMapMatchesConstructors | LabelSelector/Tokenizer/Token.cs:8-19 | `TokenTypeEnumMap` covers every subclass. It gives each subclass the kind that subclass's constructor passes to the base class, and never `Unknown`. |
| Tokens.KindDeterminesSubclass | LabelSelector/Tokenizer/Token.cs:60-113 | Two subclasses have the same kind only when they are the same subclass. So a test on the kind and a test on the subclass agree. |
| Tokens.NewTokenInvertsEnumMap | LabelSelector/Tokenizer/Token.cs:8-53 | `NewToken` applied to the kind the map gives a subclass builds a token of exactly that subclass. |
| Consumer.TokenAt | LabelSelector/TokenConsumer.cs:45-48 | Reading `_tokens[_index]` succeeds exactly when the index is inside the array. |
| Consumer.EatAt | LabelSelector/TokenConsumer.cs:19-29 | `EatToken(kind)` succeeds exactly when a token is left and it has the expected kind, and it returns that token. A token of another kind gives an error that names the expected kind and the token found. |
| Consumer.EatOfAt | LabelSelector/TokenConsumer.cs:31-43 | `EatToken<T>()` succeeds exactly when a token is left and it is of subclass `T`. On a mismatch, the error names the kind the map gives `T`. |
| Consumer.EatOfIsEat | LabelSelector/TokenConsumer.cs:31-43 | Eating by subclass behaves exactly like eating by that subclass's kind, errors included. |
| Consumer.TokenConsumer.constructor | LabelSelector/TokenConsumer.cs:13-17 | The consumer holds the given tokens with its index at 0. |
| Consumer.TokenConsumer.EatToken | LabelSelector/TokenConsumer.cs:19-29 | The result is `EatAt` at the old index. The index moves on by one exactly on success and stays put on failure. It never passes the end of the array. |
| Consumer.TokenConsumer.EatTokenOf | LabelSelector/TokenConsumer.cs:31-43 | The result is `EatOfAt` at the old index. The index moves on by one exactly on success and stays put on failure. |
| Consumer.TokenConsumer.PeekToken | LabelSelector/TokenConsumer.cs:45-48 | It returns the current token without moving, or the index error when no token is left. |
| Expressions.AnyEqualIsMembership | LabelSelector/Expression.cs:37 | `Values.Any(item == value)` holds exactly when the value is one of the values. |
| Expressions.AllDifferIsAbsence | LabelSelector/Expression.cs:66-67 | `Values.All(item != value)` holds exactly when the value is none of the values. |
| Expressions.InMeansListed | LabelSelector/Expression.cs:28-38 | `In` holds exactly when the key is a label key and its value is one of the listed values. |
| Expressions.NotInMeansUnlisted | LabelSelector/Expression.cs:56-68 | `NotIn` holds exactly when the key is absent, or its value is none of the listed values. |
| Expressions.ExistsMeansPresent | LabelSelector/Expression.cs:84-88 | `Exists` holds exactly when the key is a label key. |
| Expressions.NotExistsIsNotExists | LabelSelector/Expression.cs:104-108 | `NotExists` is the negation of `Exists`. It holds exactly when the key is absent. |
| Expressions.InNotInComplement | LabelSelector/Expression.cs:28-68 | When the key is present, `In` and `NotIn` over the same values give opposite answers. |
| Expressions.AbsentKey | LabelSelector/Expression.cs:28-68 | When the key is absent, `NotIn` holds and `In` fails, whatever the values. |
| Tester.Test | LabelSelector/LabelSelectorTester.cs:9-16 | The result is `true` exactly when the enumeration ends normally and every yielded requirement holds. It is `false` exactly when some yielded requirement fails. It is the enumeration's exception exactly when every yielded requirement holds and the enumeration then throws. |
| Tester.TestText | LabelSelector/LabelSelectorTester.cs:18-22 | Testing a selector string tests what parsing the string yields. |
| Tester.TestPrefixed | LabelSelector/LabelSelectorTester.cs:15 | When requirements are yielded before the rest of an enumeration, the result is `false` if one of them fails, and otherwise the rest decides. |
| Tester.TestSingle | LabelSelector/LabelSelectorTester.cs:15 | A selector of one requirement holds exactly when that requirement does. |
| Tokenizer.SplitByWhitespace | LabelSelector/Tokenizer/Tokenizer.cs:24-44 | The loop yields `Chunks(text)`: the maximal whitespace-free runs, left to right, except that a final run of one character is dropped. |
| Tokenizer.CorrectedSplitByWhitespace | LabelSelector/Tokenizer/Tokenizer.cs:24-44 | The loop with the final test corrected to `head < text.Length` yields every maximal whitespace-free run, the last included. |
| Tokenizer.WordsAreChunks | LabelSelector/Tokenizer/Tokenizer.cs:27-38 | The runs the loop yields are non-empty and whitespace-free. Concatenated, they spell the text with its whitespace removed. |
| Tokenizer.ChunksAreWords | LabelSelector/Tokenizer/Tokenizer.cs:24-44 | Every chunk is non-empty and whitespace-free. The chunks are the whitespace split, in order, possibly without its last run. |
| Tokenizer.FirstCoexist | LabelSelector/Tokenizer/Tokenizer.cs:59-81 | It finds the first coexist definition, in table order, whose text starts the chunk. No earlier definition matches. |
| Tokenizer.ToTokens | LabelSelector/Tokenizer/Tokenizer.cs:52-153 | The tokens of a chunk cover it: their texts, concatenated, are the chunk, and each text is non-empty. |
| Tokenizer.TryMonopoly | LabelSelector/Tokenizer/Tokenizer.cs:86-119 | The keyword loop's tokens cover the chunk. |
| Tokenizer.ValueFallback | LabelSelector/Tokenizer/Tokenizer.cs:121-152 | The value-text step's tokens cover the chunk. |
| Tokenizer.Tokenize | LabelSelector/Tokenizer/Tokenizer.cs:45-50 | The result is `Tokenized(text)`: the tokens of each chunk, chunk after chunk. |
| TokenizerProperties.CoexistIffOperatorChar | LabelSelector/Tokenizer/Tokenizer.cs:14-21 | A coexist operator matches exactly when the chunk starts with one of `( ) , = !`. |
| TokenizerProperties.CoexistFirst | LabelSelector/Tokenizer/Tokenizer.cs:59-81 | A chunk that starts with an operator yields that operator's token first (the first match in table order), then the tokens of the rest. |
| TokenizerProperties.NoCoexistCases | LabelSelector/Tokenizer/Tokenizer.cs:84-152 | Any other chunk yields one of three results, tried in this order: a kept `in` and the rest; a kept `notin` and the rest; value text. |
| TokenizerProperties.ExclamationEqualWins | LabelSelector/Tokenizer/Tokenizer.cs:14-21 | `!=` is listed before `!`, so a chunk starting with `!=` starts with one `!=` token. |
| TokenizerProperties.DoubleEqualIsTwoTokens | LabelSelector/Tokenizer/Tokenizer.cs:14-21 | There is no `==` operator: `==` becomes two `=` tokens. |
| TokenizerProperties.InIff | LabelSelector/Tokenizer/Tokenizer.cs:86-119 | The first token is `in` exactly when the chunk starts with `in` and the keyword is kept. It is kept when the rest has no tokens or starts with a coexist operator. |
| TokenizerProperties.NotInIff | LabelSelector/Tokenizer/Tokenizer.cs:86-119 | The same for `notin`. |
| TokenizerProperties.NoAdjacentValues | LabelSelector/Tokenizer/Tokenizer.cs:121-152 | No two value tokens of a chunk are adjacent, because value text is merged into the value that follows. |
| TokenizerProperties.ValuesHoldNoOperators | LabelSelector/Tokenizer/Tokenizer.cs:52-153 | A value token never contains `(`, `)`, `,`, `=` or `!`. |
| TokenizerProperties.ValueTextThenOperators | LabelSelector/Tokenizer/Tokenizer.cs:84-152 | Take operator-free text followed by nothing or by an operator. Its tokens are at most one value token and then, only when the text ends in it, the keyword `in` or `notin`, followed by the tokens of the rest. |
| TokenizerProperties.FallbackIsMerge | LabelSelector/Tokenizer/Tokenizer.cs:121-152 | In the value-text step, the first character joins the value token the rest starts with, or else stands alone as a value token. |
| TokenizerProperties.NotInValidIsOneValue | LabelSelector/Tokenizer/Tokenizer.cs:86-119 | `notinvalid` is a single value token. |
| TokenizerProperties.AdminEndsInKeyword | LabelSelector/Tokenizer/Tokenizer.cs:86-152 | `admin` is the value `adm` and the keyword `in`. |
| TokenizerProperties.ValueCanSpellKeyword | LabelSelector/Tokenizer/Tokenizer.cs:86-152 | `inin` is the value `in` and the keyword `in`, so a value token can spell a keyword. |
| TokenizerProperties.TokenizedSpellsChunks | LabelSelector/Tokenizer/Tokenizer.cs:45-50 | The token texts of a whole input, concatenated, are its chunks concatenated. Every token text is non-empty and whitespace-free. |
| TokenizerProperties.LoneCharHasNoTokens | LabelSelector/Tokenizer/Tokenizer.cs:40-43 | A text of one character has no tokens. |
| Parser.NotExistsAt | LabelSelector/Parser.cs:42-47 | It succeeds exactly on `!` followed by a value. It yields `NotExists` of that value two tokens on. A non-value after `!` is an unexpected-token error that names `Value`. |
| Parser.ArrayItemsAt | LabelSelector/Parser.cs:99-111 | On success the loop stops in front of a `)`. It has read at least one more value, each a value token, one per two tokens. |
| Parser.ArrayAt | LabelSelector/Parser.cs:95-116 | A list is `(`, then at least one value, then `)`. It spans `2n + 1` tokens for `n` values, and every item is a value token. |
| Parser.InAt | LabelSelector/Parser.cs:74-83 | After `in` comes an `In` of the key with at least one value, spanning `2n + 2` tokens. Another token where `in` is expected is an unexpected-token error. |
| Parser.NotInAt | LabelSelector/Parser.cs:84-93 | After `notin` comes a `NotIn` of the key with at least one value, spanning `2n + 2` tokens. Another token where `notin` is expected is an unexpected-token error. |
| Parser.KeyRequirementAt | LabelSelector/Parser.cs:49-72 | A key requirement starts with a value, which is its key, and is never `NotExists`. With fewer than two tokens after the key it is `Exists`. A comma after the key gives `Exists` and is consumed. Any token other than `in`, `notin` or `,` is the out-of-range error. |
| Parser.RequirementsFrom | LabelSelector/Parser.cs:19-40 | Every yielded `In` and `NotIn` has at least one value. Nothing is yielded once the tokens are used up. |
| ParserProperties.NotExpectedFirst | LabelSelector/Parser.cs:36-37 | A requirement that starts with a token other than a value, `!` or `,` (that is `(`, `)`, `=`, `!=`, `in` or `notin`) ends the enumeration with the not-expected-token error, and nothing more is yielded. |
| Parser.ParseText | LabelSelector/Parser.cs:9-13 | `Parse(string)` yields what the requirement loop yields over `Tokenize(text)`. |
| Parser.ParseTokens | LabelSelector/Parser.cs:14-18 | `Parse(Token[])` runs the requirement loop from index 0. |
| Parser.Parse | LabelSelector/Parser.cs:19-40 | The loop yields exactly `RequirementsFrom` from the consumer's start index: the same requirements and the same final exception. |
| Parser.ParseNotExistsExpression | LabelSelector/Parser.cs:42-47 | The result and the final cursor are those of `NotExistsAt`. |
| Parser.ParseInFirstValueState | LabelSelector/Parser.cs:49-72 | The result and the final cursor are those of `KeyRequirementAt`. |
| Parser.ParseInExpression | LabelSelector/Parser.cs:74-83 | The result and the final cursor are those of `InAt`. |
| Parser.ParseNotInExpression | LabelSelector/Parser.cs:84-93 | The result and the final cursor are those of `NotInAt`. |
| Parser.ParseArraySyntax | LabelSelector/Parser.cs:95-116 | The result and the final cursor are those of `ArrayAt`. |
| ParserProperties.ItemsReadInOrder | LabelSelector/Parser.cs:99-111 | For any tokens, the loop reads exactly the tokens at `i`, `i + 2`, ..., in order, with a `Comma` after each value but the last. |
| ParserProperties.ItemsErrors | LabelSelector/Parser.cs:99-111 | A round of the loop fails with the index error when the tokens run out. It fails with `UnexpectedToken(Value, t)` when the token where a value should be is not one (a list whose last separator is a comma). It fails with `UnexpectedToken(Comma, t)` when neither `)` nor `,` follows a value. |
| ParserProperties.ArrayContents | LabelSelector/Parser.cs:95-116 | For any tokens, a parsed list holds exactly the tokens at `i + 1`, `i + 3`, ..., in order, with commas between them. A token other than `(` at the start is an unexpected-token error. |
| ParserProperties.ItemsFromStart | LabelSelector/Parser.cs:99-111 | Started with nothing read, the loop reads the tokens at `j`, `j + 2`, ..., with a `Comma` after each value but the last. |
| ParserProperties.ArrayRead | LabelSelector/Parser.cs:95-116 | The texts of a parsed list are the texts of its value tokens, in order, between `(` and `)`, with commas between them. |
| ParserProperties.KeywordListValues | LabelSelector/Parser.cs:74-93 | For any tokens, the values of a parsed `In` or `NotIn` are the texts of the value tokens between `(` and `)`, in order, with commas between them. |
| ParserProperties.ItemsRoundTrip | LabelSelector/Parser.cs:99-111 | Values separated by commas and closed by `)` are read back exactly. The loop stops in front of the `)`. |
| ParserProperties.ArrayRoundTrip | LabelSelector/Parser.cs:95-116 | A parenthesised list parses to exactly its values, and the whole list is consumed. |
| ParserProperties.KeywordListStep | LabelSelector/Parser.cs:74-93 | `in` or `notin` followed by a list yields `In` or `NotIn` of the key with exactly the listed values. |
| ParserProperties.ListRequirementStep | LabelSelector/Parser.cs:58-65 | A key, a keyword and a list parse to that list requirement and end where the list ends. |
| ParserProperties.KeyStep | LabelSelector/Parser.cs:27-29 | A key requirement is yielded, and the loop goes on where it ended. |
| ParserProperties.CommaSkipped | LabelSelector/Parser.cs:33-35 | A comma where a requirement could start is skipped. |
| ParserProperties.RequirementStep | LabelSelector/Parser.cs:21-39 | A requirement followed by the end or by a comma is yielded, and parsing resumes after the comma. |
| ParserProperties.SelectorRoundTrip | LabelSelector/Parser.cs:19-40 | Tokens laid out as a selector parse to exactly its requirements, with no error. |
| ParserProperties.LeadingCommasSkipped | LabelSelector/Parser.cs:33-35 | Any number of commas before a selector change nothing. |
| ParserProperties.ParseSelectorTokens | LabelSelector/Parser.cs:14-40 | The grammar's tokens for any selector whose lists are non-empty parse back to exactly that selector. |
| ParserProperties.TwoKeysAreTwoExists | LabelSelector/Parser.cs:53-56 | Two bare keys parse to two `Exists`, because the look-ahead needs two tokens left after the key. |
| ParserProperties.ThreeKeysFail | LabelSelector/Parser.cs:60-70 | Three bare keys fail with the out-of-range error before anything is yielded. |
| ParserProperties.EqualityIsRejected | LabelSelector/Parser.cs:60-70 | `key = value` and `key != value` fail with the out-of-range error: the parser has no rule for `=` or `!=`. |
| ParserProperties.TrailingCommaInList | LabelSelector/Parser.cs:100-111 | A list that ends in a comma fails: the loop expects a value and finds `)`. |
| ParserProperties.UnclosedList | LabelSelector/Parser.cs:100-108 | A list that is never closed fails with the index error. |
| ParserProperties.ErrorAfterRequirement | LabelSelector/Parser.cs:21-37 | An error ends the enumeration, but the requirements yielded before it remain. |
| SelectorText.SelectorChunksTokens | LabelSelector/Tokenizer/Tokenizer.cs:52-153 | The chunks of a written selector whose keys and values are plain cut into exactly the grammar's tokens. |
| SelectorText.ChunksOfJoin | LabelSelector/Tokenizer/Tokenizer.cs:24-44 | Whitespace-free chunks joined by single spaces come back out of the split, as long as the last is at least two characters long. |
| SelectorText.TokenizeText | LabelSelector/Tokenizer/Tokenizer.cs:45-50 | The text of a writable selector tokenizes to exactly the grammar's tokens for it. |
| SelectorText.TextRoundTrip | LabelSelector/Parser.cs:9-13 | `Parse(string)` of a written selector yields exactly its requirements, with no error. |
| SelectorText.TestOfText | LabelSelector/LabelSelectorTester.cs:18-22 | `Test(labels, text)` of a written selector is whether every requirement holds. |
| SelectorText.LoneKeyIsLost | LabelSelector/Tokenizer/Tokenizer.cs:40-43 | As written, a one-character selector parses to nothing, so it holds for every label set. |
| SelectorText.CorrectedTextRoundTrip | LabelSelector/Tokenizer/Tokenizer.cs:40-43 | When the final chunk is kept, every plain selector round-trips through text, a final one-character key included. |
| SelectorText.CorrectedLoneKey | LabelSelector/Tokenizer/Tokenizer.cs:40-43 | When the final chunk is kept, a one-character selector holds exactly when that key is a label. |
| Scenarios.InText | LabelSelectorTest/LabelSelectorTester_Test.cs:43-67 | `key in (v1, ..., vn)` holds exactly when the key is present and its value is listed. |
| Scenarios.PresentAndUnlistedText | LabelSelectorTest/LabelSelectorTester_Test.cs:257-278 | `key, key notin (v1, ..., vn)` holds exactly when the key is present and its value is not listed. |
| Scenarios.KeyThenValueThrows | LabelSelector/Parser.cs:60-70 | After `a ,`, any key `b` followed by a value yields `Exists(a)` and then the out-of-range error. |
| Scenarios.MisspelledKeywordText | LabelSelectorTest/LabelSelectorTester_Test.cs:234-253 | A misspelled keyword such as `notIn` is a value, so `key, key notIn (...)` yields `Exists(key)` and then the out-of-range error. |
| Scenarios.InListScenario | LabelSelectorTest/LabelSelectorTester_Test.cs:13-38 | `environment in (production, qa)` holds exactly when environment is production or qa. |
| Scenarios.ExistsScenario | LabelSelectorTest/LabelSelectorTester_Test.cs:174-199 | `environment` holds exactly when environment is a label. |
| Scenarios.NotExistsScenario | LabelSelectorTest/LabelSelectorTester_Test.cs:220-231 | `!environment` holds exactly when environment is not a label. |
| Scenarios.TwoRequirementsScenario | LabelSelectorTest/LabelSelectorTester_Test.cs:257-278 | `environment, environment notin (...)` holds exactly when environment is present and its value is not listed. |
| Scenarios.MisspelledKeywordScenario | LabelSelectorTest/LabelSelectorTester_Test.cs:234-253 | `environment, environment notIn (...)` is false without the label. With the label it throws. |
| JsonExpressions.ToLowerInvariant | LabelSelector/Json/JsonExpressionParser.cs:52 | Lowering keeps the length and lowers each character in place. |
| JsonExpressions.ParseJson | LabelSelector/Json/JsonExpressionParser.cs:52-72 | A record yields exactly one requirement with its key exactly when its lowered operator is one of the four and a list operator has values. `in`/`notin` yield `In`/`NotIn` of the values, and `exists`/`notexists` yield `Exists`/`NotExists`. An unknown operator throws, naming it. |
| JsonExpressions.OperatorCaseIgnored | LabelSelector/Json/JsonExpressionParser.cs:52 | A record parses exactly as the same record with its operator lowered. |
| JsonExpressions.JsonInMatchesListed | LabelSelector/Json/JsonExpressionParser.cs:54-58 | An `In` record holds exactly when the key's value is one of the values. |
| JsonExpressions.JsonNotInRejectsListed | LabelSelector/Json/JsonExpressionParser.cs:59-63 | A `NotIn` record holds exactly when the key is absent or its value is not listed. |
| JsonExpressions.JsonExistsIsPresence | LabelSelector/Json/JsonExpressionParser.cs:64-66 | An `Exists` record holds exactly when the key is a label. |
| JsonExpressions.JsonNotExistsIsAbsence | LabelSelector/Json/JsonExpressionParser.cs:67-69 | A `NotExists` record holds exactly when the key is not a label. |
| JsonExpressions.JsonListNeedsValues | LabelSelector/Json/JsonExpressionParser.cs:54-63 | A list operator without values throws before yielding anything. |

## Left out

- Text is a sequence of Unicode characters. UTF-16 code units, and surrogate pairs in particular, are not modelled. `char.IsWhiteSpace` is written out as the fixed set of whitespace code points.
- `ReadOnlyMemory<char>` slices are modelled by their contents. Spans compare by ordinal content, so the key lookup is modelled by key membership in a map from key to value:
  - `labels.Keys.FirstOrDefault` followed by `TryGetValue` in `In.Test` and `NotIn.Test`;
  - the dictionary `LabelSelectorTester.Test` builds.
  - The default memory that `FirstOrDefault` returns when no key matches is never a key of that dictionary.
- Enumerations are modelled as what one enumeration observes. Enumerating twice, and interleaving, are not modelled.
- Exceptions are `Failure` values. Their messages, and every `ToString` override, are left out.
- Null arguments are not modelled, except a JSON record without a `values` array: a null selector string, a null label map, and a null `operator` or `key` in a record.
- `JsonSerializer.Deserialize` and its camel-case naming policy are not part of this model: the JSON front end starts from the decoded record.
- JsonExpressions.ToLowerInvariant: lowers only `A`-`Z`, not the rest of the invariant culture's case mapping.
- Indices are unbounded integers. The 32-bit `int` index of `TokenConsumer` cannot overflow for any array .NET can allocate.
- Parser.RequirementsFrom: its own contract only bounds what it yields. Its not-expected-token branch is stated by `ParserProperties.NotExpectedFirst`. What it yields for well-formed tokens is stated by `ParserProperties.SelectorRoundTrip`. For malformed tokens, the contracts of `Parser.KeyRequirementAt`, `Parser.NotExistsAt`, `Parser.InAt`, `Parser.NotInAt` and `ParserProperties.ItemsErrors` state each error, and the corner-case lemmas are worked examples.
- Parser.ArrayItemsAt, Parser.ArrayAt, Parser.InAt, Parser.NotInAt: their own contracts give the shape of what they read: the kinds, the width and the brackets. Which tokens the values are is stated by `ParserProperties.ItemsReadInOrder`, `ParserProperties.ArrayContents` and `ParserProperties.KeywordListValues`. Those lemmas are kept apart so that every proof that uses the functions does not carry them.
- SelectorText.TextRoundTrip: covers only plain keys and values. A key or value that ends in `in`, such as `login`, `domain` or `admin`, is cut into a value and an `in` keyword (`TokenizerProperties.AdminEndsInKeyword`), so its text does not parse back to it. The round trip also excludes whitespace and the characters `( ) , = !`.
- `TokenConsumer.HasToken` and `HasNextToken` are predicates without a contract of their own. `Parser.KeyRequirementAt` and `ParserProperties.TwoKeysAreTwoExists` state the effect of the two-token look-ahead.
- `Expression.Test` and `Token.Kind` are defined by their bodies. `Expressions.InMeansListed` and its siblings state what they mean.
- `Equals` and `NotEquals` requirements do not exist in the code. The tokenizer produces `=` and `!=` tokens, but the parser has no rule for them (`ParserProperties.EqualityIsRejected`), so the repository's `TestEqual_*` and `TestNotEqual_*` tests describe a feature the code lacks.
- In a few places the code does not do what a natural reading of the grammar suggests, and the model follows the code:
  - there is no `==` operator (`TokenizerProperties.DoubleEqualIsTwoTokens`);
  - a keyword is also kept at the very end of a chunk, and after value text, so `admin` is `adm` plus `in` (`TokenizerProperties.AdminEndsInKeyword`);
  - a value token can spell a keyword (`TokenizerProperties.ValueCanSpellKeyword`);
  - a bare key is `Exists` only when fewer than two tokens follow it (`ParserProperties.ThreeKeysFail`).
- These are not part of this model:
  - the top-level `Program.cs`, `Parser.cs` and `Expression.cs`;
  - `LabelSelector/Program.cs`, `LabelSelector/Token.cs`, `LabelSelector/TokenType.cs` and `LabelSelector/IExpression.cs`.

  They are an entry point and earlier copies of the same types.

## Findings

| source | as written | input that shows it | evidently intended | confidence | as-written member | corrected member |
|---|---|---|---|---|---|---|
| LabelSelector/Tokenizer/Tokenizer.cs:40-43 | After the loop, the last run is yielded only when `head < text.Length - 1`. A final run of exactly one character is dropped. | `"a"`: it has no tokens, parses to nothing, and `Test` returns true for any labels. `TestExistsExpression_False_VariousLength` expects false. | `head < text.Length`: yield every non-empty final run. | high; not executed | SelectorText.LoneKeyIsLost | SelectorText.CorrectedTextRoundTrip |
