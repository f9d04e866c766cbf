/**
 * The operator dispatch of LabelSelector/Json/JsonExpressionParser.cs:
 * an already decoded {operator, key, values} record becomes exactly one
 * requirement, chosen by the operator compared case-insensitively.
 */
module JsonExpressions {
  import opened Results
  import opened Failures
  import opened Expressions
  import opened Tester

  /** The decoded record; a record without a "values" array has None. */
  datatype JsonExpression = JsonExpression(operator: string, key: string, values: Option<seq<string>>)

  /** Invariant-culture lowering of one character, for the ASCII letters. */
  function LowerChar(c: char): char {
    if 'A' <= c && c <= 'Z' then (c as int + 32) as char else c
  }

  function ToLowerInvariant(s: string): (r: string)
    ensures |r| == |s|
    ensures forall k :: 0 <= k < |s| ==> r[k] == LowerChar(s[k])
  {
    if s == [] then [] else [LowerChar(s[0])] + ToLowerInvariant(s[1..])
  }

  /** The four operators, lower-case. */
  predicate IsOperator(lowered: string) {
    lowered == "in" || lowered == "notin" || lowered == "exists" || lowered == "notexists"
  }

  /** The two operators that read the values. */
  predicate IsListOperator(lowered: string) {
    lowered == "in" || lowered == "notin"
  }

  /**
   * Parse, from the decoded record on: one expression, or the exception the
   * enumeration throws before yielding it. In and NotIn read the values,
   * which throws when the record has none.
   */
  function ParseJson(record: JsonExpression): (r: Enumeration)
    ensures r.thrown == None <==> IsOperator(ToLowerInvariant(record.operator))
                                  && (IsListOperator(ToLowerInvariant(record.operator)) ==> record.values.Some?)
    ensures r.thrown == None ==> |r.yielded| == 1 && r.yielded[0].key == record.key
    ensures r.thrown != None ==> r.yielded == []
    ensures !IsOperator(ToLowerInvariant(record.operator)) ==> r.thrown == Some(UnknownOperator(record.operator))
    ensures ToLowerInvariant(record.operator) == "in" && record.values.Some? ==>
              r.yielded == [Expression.In(record.key, record.values.value)]
    ensures ToLowerInvariant(record.operator) == "notin" && record.values.Some? ==>
              r.yielded == [Expression.NotIn(record.key, record.values.value)]
    ensures ToLowerInvariant(record.operator) == "exists" ==> r.yielded == [Exists(record.key)]
    ensures ToLowerInvariant(record.operator) == "notexists" ==> r.yielded == [NotExists(record.key)]
  {
    var operator := ToLowerInvariant(record.operator);
    if operator == "in" then
      (match record.values
       case None => Enumeration([], Some(ArgumentNull))
       case Some(values) => Enumeration([Expression.In(record.key, values)], None))
    else if operator == "notin" then
      (match record.values
       case None => Enumeration([], Some(ArgumentNull))
       case Some(values) => Enumeration([Expression.NotIn(record.key, values)], None))
    else if operator == "exists" then Enumeration([Exists(record.key)], None)
    else if operator == "notexists" then Enumeration([NotExists(record.key)], None)
    else Enumeration([], Some(UnknownOperator(record.operator)))
  }

  lemma {:induction false} LowerIsIdempotent(s: string)
    ensures ToLowerInvariant(ToLowerInvariant(s)) == ToLowerInvariant(s)
  {
    var once := ToLowerInvariant(s);
    assert forall k :: 0 <= k < |s| ==> LowerChar(once[k]) == once[k];
  }

  /** The operator's case does not matter: a record parses as the one with its operator lowered. */
  lemma OperatorCaseIgnored(record: JsonExpression)
    requires IsOperator(ToLowerInvariant(record.operator))
    ensures ParseJson(record) == ParseJson(record.(operator := ToLowerInvariant(record.operator)))
  {
    LowerIsIdempotent(record.operator);
  }

  /** The operators as the records spell them lower to the operators the dispatch compares against. */
  lemma LowerOfIn()
    ensures ToLowerInvariant("In") == "in"
  {
    var r := ToLowerInvariant("In");
    assert r[0] == LowerChar('I') && r[1] == LowerChar('n');
  }

  lemma LowerOfNotIn()
    ensures ToLowerInvariant("NotIn") == "notin"
  {
    var r := ToLowerInvariant("NotIn");
    assert r[0] == LowerChar('N') && r[3] == LowerChar('I');
    assert r[1] == 'o' && r[2] == 't' && r[4] == 'n';
  }

  lemma LowerOfExists()
    ensures ToLowerInvariant("Exists") == "exists"
  {
    var r := ToLowerInvariant("Exists");
    assert r[0] == LowerChar('E');
    assert r[1] == 'x' && r[2] == 'i' && r[3] == 's' && r[4] == 't' && r[5] == 's';
  }

  lemma LowerOfNotExists()
    ensures ToLowerInvariant("NotExists") == "notexists"
  {
    var r := ToLowerInvariant("NotExists");
    assert r[0] == LowerChar('N') && r[3] == LowerChar('E');
    assert r[1] == 'o' && r[2] == 't';
    assert r[4] == 'x' && r[5] == 'i' && r[6] == 's' && r[7] == 't' && r[8] == 's';
  }

  /** An "In" record matches a label set exactly when the key's value is one of the listed values. */
  lemma JsonInMatchesListed(key: string, values: seq<string>, labels: map<string, string>)
    ensures Test(labels, ParseJson(JsonExpression("In", key, Some(values)))) == Ok(key in labels && labels[key] in values)
  {
    LowerOfIn();
    InMeansListed(key, values, labels);
  }

  /** A "NotIn" record matches exactly when the key is absent or its value is none of the listed values. */
  lemma JsonNotInRejectsListed(key: string, values: seq<string>, labels: map<string, string>)
    ensures Test(labels, ParseJson(JsonExpression("NotIn", key, Some(values))))
         == Ok(key !in labels || labels[key] !in values)
  {
    LowerOfNotIn();
    NotInMeansUnlisted(key, values, labels);
  }

  /** An "Exists" record matches exactly when the key is a label key. */
  lemma JsonExistsIsPresence(key: string, values: Option<seq<string>>, labels: map<string, string>)
    ensures Test(labels, ParseJson(JsonExpression("Exists", key, values))) == Ok(key in labels)
  {
    LowerOfExists();
    TestSingle(labels, Exists(key));
    ExistsMeansPresent(key, labels);
  }

  /** A "NotExists" record matches exactly when the key is not a label key. */
  lemma JsonNotExistsIsAbsence(key: string, values: Option<seq<string>>, labels: map<string, string>)
    ensures Test(labels, ParseJson(JsonExpression("NotExists", key, values))) == Ok(!(key in labels))
  {
    LowerOfNotExists();
    TestSingle(labels, NotExists(key));
    NotExistsIsNotExists(key, labels);
  }

  /** A list operator without values fails without yielding anything. */
  lemma JsonListNeedsValues(operator: string, key: string, labels: map<string, string>)
    requires IsListOperator(ToLowerInvariant(operator))
    ensures Test(labels, ParseJson(JsonExpression(operator, key, None))) == Err(ArgumentNull)
  {
  }
}
