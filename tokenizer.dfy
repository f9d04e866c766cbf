/**
 * The tokenizer (LabelSelector/Tokenizer/Tokenizer.cs).
 *
 * The input is cut into whitespace-free chunks; each chunk is then cut into
 * tokens by a recursion on the chunk that tries, in order, the coexist
 * operators, the monopoly keywords, and finally value text.
 */
module Tokenizer {
  import opened Results
  import opened Tokens

  // ---------------------------------------------------------------------------
  // Whitespace and chunks
  // ---------------------------------------------------------------------------

  /** char.IsWhiteSpace: the Unicode space separators, line and paragraph separators, and U+0009-U+000D, U+0085. */
  predicate IsWhiteSpace(c: char) {
    var n := c as int;
    (0x09 <= n <= 0x0D) || n == 0x20 || n == 0x85 || n == 0xA0 || n == 0x1680
    || (0x2000 <= n <= 0x200A) || n == 0x2028 || n == 0x2029 || n == 0x202F
    || n == 0x205F || n == 0x3000
  }

  predicate NoWhiteSpace(s: string) {
    forall k :: 0 <= k < |s| ==> !IsWhiteSpace(s[k])
  }

  /** Length of the longest whitespace-free prefix of s. */
  function RunLength(s: string): (n: nat)
    ensures n <= |s|
    ensures NoWhiteSpace(s[..n])
    ensures n < |s| ==> IsWhiteSpace(s[n])
  {
    if s == [] || IsWhiteSpace(s[0]) then 0 else 1 + RunLength(s[1..])
  }

  /** The maximal whitespace-free runs of s, left to right: a plain split on whitespace. */
  function Words(s: string): seq<string>
    decreases |s|
  {
    if s == [] then []
    else if IsWhiteSpace(s[0]) then Words(s[1..])
    else
      var n := RunLength(s);
      [s[..n]] + Words(s[n..])
  }

  /** s ends in a run of exactly one character. */
  predicate EndsInLoneChar(s: string) {
    |s| >= 1 && !IsWhiteSpace(s[|s| - 1]) && (|s| == 1 || IsWhiteSpace(s[|s| - 2]))
  }

  /**
   * What SplitByWhitespace yields: the whitespace split, except that a final
   * run of one character at the very end of the text is lost.
   */
  function Chunks(text: string): seq<string> {
    var w := Words(text);
    if EndsInLoneChar(text) && |w| > 0 then w[..|w| - 1] else w
  }

  /** Concatenation of a sequence of strings. */
  function Concat(ss: seq<string>): string {
    if ss == [] then [] else ss[0] + Concat(ss[1..])
  }

  /** s with its whitespace characters removed. */
  function Squeeze(s: string): string {
    if s == [] then [] else (if IsWhiteSpace(s[0]) then [] else [s[0]]) + Squeeze(s[1..])
  }

  lemma {:induction false} RunIsWholeWord(s: string)
    requires s != [] && NoWhiteSpace(s)
    ensures RunLength(s) == |s|
  {
    if |s| > 1 {
      RunIsWholeWord(s[1..]);
    }
  }

  lemma {:induction false} RunStopsInPrefix(a: string, b: string)
    requires a != [] && IsWhiteSpace(a[|a| - 1])
    ensures RunLength(a + b) == RunLength(a) < |a|
    decreases |a|
  {
    if !IsWhiteSpace(a[0]) {
      assert (a + b)[1..] == a[1..] + b;
      RunStopsInPrefix(a[1..], b);
    }
  }

  /** The split of a + b is the split of a, then that of b, when a ends at a word boundary. */
  lemma {:induction false} WordsAppend(a: string, b: string)
    requires a == [] || IsWhiteSpace(a[|a| - 1])
    ensures Words(a + b) == Words(a) + Words(b)
    decreases |a|
  {
    if a == [] {
      assert a + b == b;
    } else if IsWhiteSpace(a[0]) {
      assert (a + b)[1..] == a[1..] + b;
      WordsAppend(a[1..], b);
    } else {
      var n := RunLength(a);
      RunStopsInPrefix(a, b);
      assert (a + b)[..n] == a[..n];
      assert (a + b)[n..] == a[n..] + b;
      WordsAppend(a[n..], b);
    }
  }

  /** A non-empty whitespace-free string is one word. */
  lemma SingleWord(s: string)
    requires s != [] && NoWhiteSpace(s)
    ensures Words(s) == [s]
  {
    RunIsWholeWord(s);
    assert s[..|s|] == s;
    assert s[|s|..] == [];
  }

  /** Every word is non-empty and whitespace-free, and the words spell out the text with its whitespace removed. */
  lemma {:induction false} WordsAreChunks(s: string)
    ensures forall k :: 0 <= k < |Words(s)| ==> Words(s)[k] != [] && NoWhiteSpace(Words(s)[k])
    ensures Concat(Words(s)) == Squeeze(s)
    decreases |s|
  {
    if s == [] {
    } else if IsWhiteSpace(s[0]) {
      WordsAreChunks(s[1..]);
    } else {
      var n := RunLength(s);
      WordsAreChunks(s[n..]);
      SqueezeWord(s[..n]);
      SqueezeAppend(s[..n], s[n..]);
      assert s[..n] + s[n..] == s;
      assert Words(s) == [s[..n]] + Words(s[n..]);
      assert Words(s)[1..] == Words(s[n..]);
    }
  }

  lemma {:induction false} SqueezeWord(s: string)
    requires NoWhiteSpace(s)
    ensures Squeeze(s) == s
  {
    if s != [] {
      SqueezeWord(s[1..]);
    }
  }

  lemma {:induction false} SqueezeAppend(a: string, b: string)
    ensures Squeeze(a + b) == Squeeze(a) + Squeeze(b)
  {
    if a == [] {
      assert a + b == b;
    } else {
      assert (a + b)[1..] == a[1..] + b;
      SqueezeAppend(a[1..], b);
    }
  }

  /** Chunks are non-empty, whitespace-free, and in input order. */
  lemma ChunksAreWords(text: string)
    ensures forall k :: 0 <= k < |Chunks(text)| ==> Chunks(text)[k] != [] && NoWhiteSpace(Chunks(text)[k])
    ensures Chunks(text) <= Words(text)
  {
    WordsAreChunks(text);
  }

  /**
   * The loop in SplitByWhitespace: `head` is where the current run began,
   * a run is yielded when whitespace ends it, and after the loop the
   * remaining run is yielded only if it has at least two characters.
   */
  method SplitByWhitespace(text: string) returns (chunks: seq<string>)
    ensures chunks == Chunks(text)
  {
    chunks := [];
    var head := 0;
    for i := 0 to |text|
      invariant head <= i
      invariant head == 0 || IsWhiteSpace(text[head - 1])
      invariant NoWhiteSpace(text[head..i])
      invariant chunks == Words(text[..head])
    {
      if !IsWhiteSpace(text[i]) {
        assert text[head..i + 1] == text[head..i] + [text[i]];
        continue;
      }
      if head < i {
        chunks := chunks + [text[head..i]];
      }
      SplitStep(text, head, i);
      head := i + 1;
    }
    if head < |text| - 1 {
      chunks := chunks + [text[head..]];
    }
    SplitTail(text, head);
  }

  lemma SplitStep(text: string, head: nat, i: nat)
    requires head <= i < |text|
    requires head == 0 || IsWhiteSpace(text[head - 1])
    requires NoWhiteSpace(text[head..i])
    requires IsWhiteSpace(text[i])
    ensures Words(text[..i + 1]) == Words(text[..head]) + (if head < i then [text[head..i]] else [])
  {
    var run := text[head..i] + [text[i]];
    assert text[..i + 1] == text[..head] + run;
    WordsAppend(text[..head], run);
    if head < i {
      RunStopsInPrefix(run, []);
      RunIsWholeWord(text[head..i]);
      assert run + [] == run;
      assert RunLength(run) == i - head by {
        assert RunLength(text[head..i] + [text[i]]) == RunLength(text[head..i]) by {
          RunPrefix(text[head..i], [text[i]]);
        }
      }
      assert run[..i - head] == text[head..i];
      assert run[i - head..] == [text[i]];
      assert Words([text[i]]) == [];
    } else {
      assert run == [text[i]];
    }
  }

  /** A whitespace-free run followed by whitespace is exactly the first run. */
  lemma RunPrefix(a: string, b: string)
    requires NoWhiteSpace(a)
    requires b != [] && IsWhiteSpace(b[0])
    ensures RunLength(a + b) == |a|
  {
    var s, n := a + b, RunLength(a + b);
    assert forall k :: 0 <= k < |a| ==> s[k] == a[k];
    assert n >= |a|;
    assert s[|a|] == b[0];
  }

  lemma SplitTail(text: string, head: nat)
    requires head <= |text|
    requires head == 0 || IsWhiteSpace(text[head - 1])
    requires NoWhiteSpace(text[head..])
    ensures Chunks(text) == Words(text[..head]) + (if head < |text| - 1 then [text[head..]] else [])
  {
    assert text == text[..head] + text[head..];
    WordsAppend(text[..head], text[head..]);
    if head < |text| {
      SingleWord(text[head..]);
      assert EndsInLoneChar(text) <==> head == |text| - 1;
    } else {
      assert !EndsInLoneChar(text);
    }
  }

  /** SplitByWhitespace as evidently intended: the final run is yielded whatever its length. */
  method CorrectedSplitByWhitespace(text: string) returns (chunks: seq<string>)
    ensures chunks == Words(text)
  {
    chunks := [];
    var head := 0;
    for i := 0 to |text|
      invariant head <= i
      invariant head == 0 || IsWhiteSpace(text[head - 1])
      invariant NoWhiteSpace(text[head..i])
      invariant chunks == Words(text[..head])
    {
      if !IsWhiteSpace(text[i]) {
        assert text[head..i + 1] == text[head..i] + [text[i]];
        continue;
      }
      if head < i {
        chunks := chunks + [text[head..i]];
      }
      SplitStep(text, head, i);
      head := i + 1;
    }
    if head < |text| {
      chunks := chunks + [text[head..]];
    }
    assert text == text[..head] + text[head..];
    FinalRun(text[..head], text[head..]);
  }

  /** Words already split off, then a final whitespace-free run: the run is one more word unless it is empty. */
  lemma FinalRun(done: string, run: string)
    requires done == [] || IsWhiteSpace(done[|done| - 1])
    requires NoWhiteSpace(run)
    ensures Words(done + run) == Words(done) + (if run == [] then [] else [run])
  {
    WordsAppend(done, run);
    if run != [] {
      SingleWord(run);
    }
  }

  // ---------------------------------------------------------------------------
  // Tokens of one chunk
  // ---------------------------------------------------------------------------

  /** The operators that may touch any other token, tried in this order. */
  const CoexistTokenDefinitions: seq<(TokenType, string)> := [
    (OpenParentheses, "("),
    (CloseParentheses, ")"),
    (Comma, ","),
    (Equal, "="),
    (ExclamationEqual, "!="),
    (Exclamation, "!")
  ]

  /** The keywords, kept only when no value text follows them in the chunk. */
  const MonopolyTokenDefinitions: seq<(TokenType, string)> := [
    (In, "in"),
    (NotIn, "notin")
  ]

  predicate StartsWith(s: string, prefix: string) {
    |prefix| <= |s| && s[..|prefix|] == prefix
  }

  predicate IsCoexistKind(k: TokenType) {
    exists j :: 0 <= j < |CoexistTokenDefinitions| && CoexistTokenDefinitions[j].0 == k
  }

  /** The first coexist definition, from position `from` of the table on, whose text starts the chunk. */
  function FirstCoexist(chunk: string, from: nat): (r: Option<nat>)
    decreases |CoexistTokenDefinitions| - from
    ensures r.Some? ==> from <= r.value < |CoexistTokenDefinitions|
    ensures r.Some? ==> StartsWith(chunk, CoexistTokenDefinitions[r.value].1)
    ensures forall j :: from <= j < |CoexistTokenDefinitions| && (r.None? || j < r.value) ==>
                          !StartsWith(chunk, CoexistTokenDefinitions[j].1)
  {
    if from >= |CoexistTokenDefinitions| then None
    else if StartsWith(chunk, CoexistTokenDefinitions[from].1) then Some(from)
    else FirstCoexist(chunk, from + 1)
  }

  /** Token.NewToken for a kind known to be in range. */
  function MakeToken(k: TokenType, text: string): Token
    requires k != Unknown
  {
    NewToken(k, text).value
  }

  /** Concatenation of the token texts. */
  function Texts(ts: seq<Token>): string {
    if ts == [] then [] else ts[0].value + Texts(ts[1..])
  }

  /** The tokens cut the chunk into non-empty pieces, in order, with nothing lost. */
  predicate Covers(ts: seq<Token>, chunk: string) {
    Texts(ts) == chunk && forall k :: 0 <= k < |ts| ==> ts[k].value != []
  }

  lemma {:induction false} TextsAppend(a: seq<Token>, b: seq<Token>)
    ensures Texts(a + b) == Texts(a) + Texts(b)
  {
    if a == [] {
      assert a + b == b;
    } else {
      assert (a + b)[1..] == a[1..] + b;
      TextsAppend(a[1..], b);
    }
  }

  lemma CoversPrepend(t: Token, ts: seq<Token>, chunk: string, n: nat)
    requires 0 < n <= |chunk| && t.value == chunk[..n]
    requires Covers(ts, chunk[n..])
    ensures Covers([t] + ts, chunk)
  {
    assert ([t] + ts)[1..] == ts;
    assert chunk[..n] + chunk[n..] == chunk;
  }

  /**
   * ToTokens: the tokens of one chunk. A coexist operator at the front is
   * taken first; otherwise the keywords are tried; otherwise value text.
   */
  function ToTokens(chunk: string): (r: seq<Token>)
    decreases |chunk|, 2
    ensures Covers(r, chunk)
  {
    if |chunk| == 0 then []
    else match FirstCoexist(chunk, 0)
      case Some(j) =>
        var (k, m) := CoexistTokenDefinitions[j];
        CoversPrepend(MakeToken(k, chunk[..|m|]), ToTokens(chunk[|m|..]), chunk, |m|);
        [MakeToken(k, chunk[..|m|])] + ToTokens(chunk[|m|..])
      case None => TryMonopoly(chunk, 0)
  }

  /**
   * The keyword loop: a keyword at the front is kept when the rest of the
   * chunk has no tokens or starts with a coexist operator; otherwise the
   * next keyword is tried, and after the last one the chunk is value text.
   */
  function TryMonopoly(chunk: string, from: nat): (r: seq<Token>)
    requires |chunk| > 0
    decreases |chunk|, 1, |MonopolyTokenDefinitions| - from
    ensures Covers(r, chunk)
  {
    if from >= |MonopolyTokenDefinitions| then ValueFallback(chunk)
    else
      var (k, m) := MonopolyTokenDefinitions[from];
      if !StartsWith(chunk, m) then TryMonopoly(chunk, from + 1)
      else
        var next := ToTokens(chunk[|m|..]);
        if |next| != 0 && !IsCoexistKind(next[0].Kind()) then TryMonopoly(chunk, from + 1)
        else
          CoversPrepend(MakeToken(k, chunk[..|m|]), next, chunk, |m|);
          [MakeToken(k, chunk[..|m|])] + next
  }

  /**
   * Value text: the first character becomes a value token of its own, or is
   * merged into the value token that the rest of the chunk starts with.
   */
  function ValueFallback(chunk: string): (r: seq<Token>)
    requires |chunk| > 0
    decreases |chunk|, 0
    ensures Covers(r, chunk)
  {
    var next := ToTokens(chunk[1..]);
    if |next| > 0 then
      if next[0].Kind() == Value then
        MergeCovers(chunk, next);
        [MakeToken(Value, chunk[..|next[0].value| + 1])] + next[1..]
      else
        CoversPrepend(MakeToken(Value, chunk[..1]), next, chunk, 1);
        [MakeToken(Value, chunk[..1])] + next
    else
      assert chunk[..|chunk|] == chunk;
      [MakeToken(Value, chunk)]
  }

  lemma MergeCovers(chunk: string, next: seq<Token>)
    requires |chunk| > 0 && |next| > 0
    requires Covers(next, chunk[1..])
    ensures |next[0].value| + 1 <= |chunk|
    ensures chunk[..|next[0].value| + 1] == [chunk[0]] + next[0].value
    ensures Covers([MakeToken(Value, chunk[..|next[0].value| + 1])] + next[1..], chunk)
  {
    var n := |next[0].value|;
    assert next == [next[0]] + next[1..];
    assert Texts(next) == next[0].value + Texts(next[1..]);
    assert chunk[1..][..n] == next[0].value;
    assert chunk[..n + 1] == [chunk[0]] + next[0].value;
    assert chunk[n + 1..] == chunk[1..][n..];
    var t := MakeToken(Value, chunk[..n + 1]);
    assert Covers(next[1..], chunk[n + 1..]) by {
      forall k | 0 <= k < |next[1..]| ensures next[1..][k].value != [] {
        assert next[1..][k] == next[k + 1];
      }
    }
    CoversPrepend(t, next[1..], chunk, n + 1);
  }

  // ---------------------------------------------------------------------------
  // The whole input
  // ---------------------------------------------------------------------------

  /** SelectMany(ToTokens) over a sequence of chunks. */
  function TokensOfChunks(chunks: seq<string>): seq<Token> {
    if chunks == [] then [] else ToTokens(chunks[0]) + TokensOfChunks(chunks[1..])
  }

  /** The tokens of a whole selector text. */
  function Tokenized(text: string): seq<Token> {
    TokensOfChunks(Chunks(text))
  }

  /** Tokenize: the chunks of the text, each cut into tokens, in order. */
  method Tokenize(text: string) returns (tokens: seq<Token>)
    ensures tokens == Tokenized(text)
  {
    var chunks := SplitByWhitespace(text);
    tokens := TokensOfChunks(chunks);
  }
}
