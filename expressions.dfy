/**
 * The requirements a selector is made of (LabelSelector/Expression.cs) and
 * their evaluation against a set of labels. Label keys are compared by
 * content, so the labels are a map from key to value.
 */
module Expressions {
  import opened Results
  import opened Failures

  /** Values.Any(item => item == value), left to right. */
  predicate AnyEqual(values: seq<string>, value: string) {
    values != [] && (values[0] == value || AnyEqual(values[1..], value))
  }

  /** Values.All(item => item != value), left to right. */
  predicate AllDiffer(values: seq<string>, value: string) {
    values == [] || (values[0] != value && AllDiffer(values[1..], value))
  }

  datatype Expression =
    | In(key: string, values: seq<string>)
    | NotIn(key: string, values: seq<string>)
    | Exists(key: string)
    | NotExists(key: string)
  {
    /** Does the label set satisfy this requirement? Only reads the labels. */
    predicate Test(labels: map<string, string>) {
      match this
      case In(key, values) =>
        if key !in labels then false else AnyEqual(values, labels[key])
      case NotIn(key, values) =>
        if key !in labels then true else AllDiffer(values, labels[key])
      case Exists(key) =>
        exists labelKey :: labelKey in labels && labelKey == key
      case NotExists(key) =>
        forall labelKey :: labelKey in labels ==> labelKey != key
    }
  }

  /**
   * What enumerating an IEnumerable<IExpression> observes: the expressions
   * it yields, in order, and the exception, if any, thrown after the last of them.
   */
  datatype Enumeration = Enumeration(yielded: seq<Expression>, thrown: Option<Failure>)

  lemma {:induction false} AnyEqualIsMembership(values: seq<string>, value: string)
    ensures AnyEqual(values, value) <==> value in values
  {
    if values != [] {
      AnyEqualIsMembership(values[1..], value);
      assert values == [values[0]] + values[1..];
    }
  }

  lemma {:induction false} AllDifferIsAbsence(values: seq<string>, value: string)
    ensures AllDiffer(values, value) <==> value !in values
  {
    if values != [] {
      AllDifferIsAbsence(values[1..], value);
      assert values == [values[0]] + values[1..];
    }
  }

  /** Exists holds exactly when the key is a label key. */
  lemma ExistsMeansPresent(key: string, labels: map<string, string>)
    ensures Exists(key).Test(labels) <==> key in labels
  {
  }

  /** NotExists is exactly the negation of Exists. */
  lemma NotExistsIsNotExists(key: string, labels: map<string, string>)
    ensures NotExists(key).Test(labels) <==> !Exists(key).Test(labels)
    ensures NotExists(key).Test(labels) <==> key !in labels
  {
  }

  /** In holds exactly when the key is present and its value is one of the listed values. */
  lemma InMeansListed(key: string, values: seq<string>, labels: map<string, string>)
    ensures In(key, values).Test(labels) <==> key in labels && labels[key] in values
  {
    if key in labels {
      AnyEqualIsMembership(values, labels[key]);
    }
  }

  /** NotIn holds exactly when the key is absent or its value is none of the listed values. */
  lemma NotInMeansUnlisted(key: string, values: seq<string>, labels: map<string, string>)
    ensures NotIn(key, values).Test(labels) <==> key !in labels || labels[key] !in values
  {
    if key in labels {
      AllDifferIsAbsence(values, labels[key]);
    }
  }

  /** With the key present, In and NotIn over the same values disagree. */
  lemma InNotInComplement(key: string, values: seq<string>, labels: map<string, string>)
    requires key in labels
    ensures In(key, values).Test(labels) == !NotIn(key, values).Test(labels)
  {
    InMeansListed(key, values, labels);
    NotInMeansUnlisted(key, values, labels);
  }

  /** With the key absent, NotIn holds and In fails, whatever the values. */
  lemma AbsentKey(key: string, values: seq<string>, labels: map<string, string>)
    requires key !in labels
    ensures NotIn(key, values).Test(labels) && !In(key, values).Test(labels)
  {
  }
}
