/**
 * Evaluation of a whole selector (LabelSelector/LabelSelectorTester.cs):
 * every requirement must hold. The requirements are enumerated lazily, so
 * evaluation meets them one at a time, stops at the first that fails, and
 * only sees a parse error if every requirement before it held.
 */
module Tester {
  import opened Results
  import opened Failures
  import opened Expressions
  import opened Parser

  /** Every expression holds for the labels. */
  predicate AllHold(labels: map<string, string>, es: seq<Expression>) {
    forall e <- es :: e.Test(labels)
  }

  /**
   * expressions.All(expression => expression.Test(labels)) over a lazy
   * enumeration: true if it ends normally with every expression true, false
   * at the first false expression, and the enumeration's exception if it
   * throws before any expression was false.
   */
  function Test(labels: map<string, string>, expressions: Enumeration): (r: Result<bool, Failure>)
    decreases |expressions.yielded|
    ensures r == Ok(true) <==> expressions.thrown == None && AllHold(labels, expressions.yielded)
    ensures r == Ok(false) <==> !AllHold(labels, expressions.yielded)
    ensures r.Err? <==> AllHold(labels, expressions.yielded) && expressions.thrown.Some?
    ensures r.Err? ==> r.error == expressions.thrown.value
  {
    var ys := expressions.yielded;
    if ys == [] then
      (match expressions.thrown
       case None => Ok(true)
       case Some(failure) => Err(failure))
    else if !ys[0].Test(labels) then Ok(false)
    else
      assert ys == [ys[0]] + ys[1..];
      Test(labels, Enumeration(ys[1..], expressions.thrown))
  }

  /** Test(labels, labelSelector): parse the selector, then test what it yields. */
  method TestText(labels: map<string, string>, labelSelector: string) returns (r: Result<bool, Failure>)
    ensures r == Test(labels, Parsed(labelSelector))
  {
    var expressions := ParseText(labelSelector);
    r := Test(labels, expressions);
  }

  /** Requirements yielded before the rest: either one of them fails, or the rest decides. */
  lemma {:induction false} TestPrefixed(labels: map<string, string>, ys: seq<Expression>, rest: Enumeration)
    ensures Test(labels, Prefixed(ys, rest)) == if AllHold(labels, ys) then Test(labels, rest) else Ok(false)
    decreases |ys|
  {
    if ys != [] {
      var tail := Prefixed(ys[1..], rest);
      assert Prefixed(ys, rest).yielded == [ys[0]] + tail.yielded;
      TestPrefixed(labels, ys[1..], rest);
      assert ys == [ys[0]] + ys[1..];
      if ys[0].Test(labels) {
        assert AllHold(labels, ys) == AllHold(labels, ys[1..]);
        assert Test(labels, Prefixed(ys, rest)) == Test(labels, tail);
      }
    } else {
      assert Prefixed(ys, rest) == rest;
    }
  }

  /** A selector of one requirement holds exactly when that requirement does. */
  lemma TestSingle(labels: map<string, string>, e: Expression)
    ensures Test(labels, Enumeration([e], None)) == Ok(e.Test(labels))
  {
    assert AllHold(labels, [e]) == e.Test(labels);
  }
}
