/** The condition matcher: whether one answer satisfies one condition
    expression (`RecommendationEngine._match`). A string expression is first
    read by its operator prefix into a `Condition`; the matcher then
    dispatches on that closed set of cases. */
module Matcher {
  import opened Base
  import opened Text
  import opened Values

  datatype Condition =
    | AtLeast(operand: string)     // ">=N": numeric
    | NotEqual(operand: string)    // "!=S": string inequality
    | LessThan(operand: string)    // "<N": numeric
    | OneOf(items: seq<string>)    // "in:a,b": the answer's string form is one of the items
    | NoneOf(items: seq<string>)   // "notin:a,b"
    | Literal(target: Value)       // no prefix, or not a string

  /** Prefixes are tried in the source's order: ">=", "!=", "<", "in:", "notin:". */
  function ParseCondition(expr: Value): (c: Condition)
    ensures !expr.Str? ==> c == Literal(expr)
    ensures c.Literal? ==> c.target == expr
  {
    if expr.Str? then
      var s := expr.s;
      if StartsWith(s, ">=") then AtLeast(s[2..])
      else if StartsWith(s, "!=") then NotEqual(s[2..])
      else if StartsWith(s, "<") then LessThan(s[1..])
      else if StartsWith(s, "in:") then OneOf(Split(s[3..], ','))
      else if StartsWith(s, "notin:") then NoneOf(Split(s[6..], ','))
      else Literal(expr)
    else Literal(expr)
  }

  /** Python's `float(v)`; `None` where it raises. */
  function AsNumber(v: Value): (r: Option<real>)
    ensures v.Null? || v.List? ==> r.None?
  {
    match v
    case Bool(b) => Some(if b then 1.0 else 0.0)
    case Int(i) => Some(i as real)
    case Str(s) => ParseNumber(s)
    case _ => None
  }

  /** A numeric comparison that evaluates to false when either side fails to
      convert, as the source's `except: return False` does. */
  predicate Compare(answer: Value, operand: string, atLeast: bool) {
    match (AsNumber(answer), ParseNumber(operand))
    case (Some(x), Some(y)) => if atLeast then x >= y else x < y
    case _ => false
  }

  predicate Holds(answer: Value, c: Condition) {
    match c
    case AtLeast(o) => Compare(answer, o, true)
    case NotEqual(o) => ToString(answer) != o
    case LessThan(o) => Compare(answer, o, false)
    case OneOf(items) => ToString(answer) in items
    case NoneOf(items) => ToString(answer) !in items
    case Literal(t) => if answer.List? then Contains(answer.items, t) else ToString(answer) == ToString(t)
  }

  /** `_match(field_val, cond_val)` */
  predicate Matches(answer: Value, expr: Value) {
    Holds(answer, ParseCondition(expr))
  }

  // ---------------------------------------------------------------- properties

  /** The prefixes start with different characters, so the first character
      of an expression decides which prefix test can succeed. */
  lemma FirstCharDispatch(s: string)
    ensures |s| == 0 || s[0] !in "<>!in" ==> ParseCondition(Str(s)) == Literal(Str(s))
    ensures |s| > 0 && s[0] == '<' ==> ParseCondition(Str(s)) == LessThan(s[1..])
    ensures |s| > 0 && s[0] == '>' ==>
      ParseCondition(Str(s)) == if StartsWith(s, ">=") then AtLeast(s[2..]) else Literal(Str(s))
    ensures |s| > 0 && s[0] == '!' ==>
      ParseCondition(Str(s)) == if StartsWith(s, "!=") then NotEqual(s[2..]) else Literal(Str(s))
    ensures |s| > 0 && s[0] == 'i' ==>
      ParseCondition(Str(s)) == if StartsWith(s, "in:") then OneOf(Split(s[3..], ',')) else Literal(Str(s))
    ensures |s| > 0 && s[0] == 'n' ==>
      ParseCondition(Str(s)) == if StartsWith(s, "notin:") then NoneOf(Split(s[6..], ',')) else Literal(Str(s))
  {
    if |s| > 0 {
      forall p: string | p in [">=", "!=", "<", "in:", "notin:"] && s[0] != p[0]
        ensures !StartsWith(s, p)
      {
      }
    }
  }

  /** `>=N` and `<N` never match when the answer or the operand is not a
      number: the conversion failure is swallowed. */
  lemma NumericFailsClosed(answer: Value, operand: string)
    requires AsNumber(answer).None? || ParseNumber(operand).None?
    ensures !Matches(answer, Str(">=" + operand))
    ensures !Matches(answer, Str("<" + operand))
  {
    FirstCharDispatch(">=" + operand);
    StartsWithConcat(">=", operand);
    FirstCharDispatch("<" + operand);
    StartsWithConcat("<", operand);
  }

  /** "!=S" compares string forms: it matches every answer whose string
      form is not exactly `S`. */
  lemma NotEqualMatch(answer: Value, rest: string)
    ensures Matches(answer, Str("!=" + rest)) <==> ToString(answer) != rest
  {
    FirstCharDispatch("!=" + rest);
    StartsWithConcat("!=", rest);
  }

  /** "<=N" is read as "<" with operand "=N", which is never a number, so it
      never matches anything. */
  lemma LessOrEqualNeverMatches(answer: Value, rest: string)
    ensures ParseCondition(Str("<=" + rest)) == LessThan("=" + rest)
    ensures !Matches(answer, Str("<=" + rest))
  {
    assert "<=" + rest == "<" + ("=" + rest);
    FirstCharDispatch("<=" + rest);
    StartsWithConcat("<", "=" + rest);
  }

  /** ">N" (without "=") is no operator: it matches only an answer whose
      string form is the expression itself. */
  lemma GreaterThanIsLiteral(answer: Value, rest: string)
    requires !StartsWith(rest, "=")
    requires !answer.List?
    ensures ParseCondition(Str(">" + rest)) == Literal(Str(">" + rest))
    ensures Matches(answer, Str(">" + rest)) <==> ToString(answer) == ">" + rest
  {
    var s := ">" + rest;
    FirstCharDispatch(s);
    assert !StartsWith(s, ">=") by {
      if |rest| > 0 { assert s[1] == rest[0]; }
    }
  }

  /** `ParseCondition` puts every string in the bucket of its first matching
      prefix; "notin:" is reached only because "in:" is not a prefix of it. */
  lemma NotInIsNotIn(items: string)
    ensures ParseCondition(Str("notin:" + items)) == NoneOf(Split(items, ','))
    ensures ParseCondition(Str("in:" + items)) == OneOf(Split(items, ','))
  {
    FirstCharDispatch("notin:" + items);
    StartsWithConcat("notin:", items);
    FirstCharDispatch("in:" + items);
    StartsWithConcat("in:", items);
  }

  /** For the same answer and list, `in:` and `notin:` give opposite answers. */
  lemma InNotInComplement(answer: Value, items: string)
    ensures Matches(answer, Str("in:" + items)) == !Matches(answer, Str("notin:" + items))
  {
    NotInIsNotIn(items);
  }

  /** `in:` compares the answer's string form with the comma-separated items
      exactly, with no trimming. */
  lemma InListMembership(answer: Value, items: seq<string>)
    requires |items| >= 1
    requires forall k :: 0 <= k < |items| ==> ',' !in items[k]
    ensures Matches(answer, Str("in:" + Join(items, ","))) <==> ToString(answer) in items
  {
    NotInIsNotIn(Join(items, ","));
    SplitJoin(items, ',');
  }

  /** The list "a, b" does not accept "b": its second item is " b". */
  lemma InDoesNotTrim()
    ensures !Matches(Str("b"), Str("in:" + Join(["a", " b"], ",")))
    ensures Matches(Str(" b"), Str("in:" + Join(["a", " b"], ",")))
  {
    InListMembership(Str("b"), ["a", " b"]);
    InListMembership(Str(" b"), ["a", " b"]);
  }

  /** Without an operator prefix, a list answer matches when the expression is
      one of its elements (by Python equality), any other answer when the two
      string forms are equal. */
  lemma LiteralMatch(answer: Value, expr: Value)
    requires ParseCondition(expr).Literal?
    ensures answer.List? ==> (Matches(answer, expr) <==> Contains(answer.items, expr))
    ensures answer.List? && expr in answer.items ==> Matches(answer, expr)
    ensures !answer.List? ==> (Matches(answer, expr) <==> ToString(answer) == ToString(expr))
  {
    if answer.List? && expr in answer.items {
      ContainsMember(answer.items, expr);
    }
  }

  /** An absent answer reads as None: the string "None" matches it. */
  lemma AbsentAnswerIsNone()
    ensures Matches(Null, Str("None"))
    ensures !Matches(Null, Str(""))
  {
    FirstCharDispatch("None");
    FirstCharDispatch("");
    assert Repr(Null) == "None";
  }

  /** Python equality in list membership: the answer [1] satisfies the
      condition `true`, because True == 1. */
  lemma ListMembershipUsesPythonEquality()
    ensures Matches(List([Int(1)]), Bool(true))
    ensures !Matches(Int(1), Bool(true))
  {
    assert [Int(1)][0] == Int(1);
    assert PyEq(Int(1), Bool(true));
    assert ToString(Int(1)) == "1";
    assert ToString(Bool(true)) == "True";
  }

  /** Against an integer operand, `>=N` and `<N` compare the answer's
      numeric value with `N`. */
  lemma NumericComparisons(answer: Value, x: real, n: int)
    requires AsNumber(answer) == Some(x)
    ensures Matches(answer, Str(">=" + IntToString(n))) == (x >= n as real)
    ensures Matches(answer, Str("<" + IntToString(n))) == (x < n as real)
  {
    var o := IntToString(n);
    ParseIntToString(n);
    FirstCharDispatch(">=" + o);
    StartsWithConcat(">=", o);
    FirstCharDispatch("<" + o);
    StartsWithConcat("<", o);
  }

  /** On integer answers, `>=N` and `<N` are the integer comparisons. */
  lemma IntegerComparisons(a: int, n: int)
    ensures Matches(Int(a), Str(">=" + IntToString(n))) == (a >= n)
    ensures Matches(Int(a), Str("<" + IntToString(n))) == (a < n)
  {
    NumericComparisons(Int(a), a as real, n);
  }

  /** The same holds for an integer answer given as its digit string. */
  lemma DigitStringComparisons(a: int, n: int)
    ensures Matches(Str(IntToString(a)), Str(">=" + IntToString(n))) == (a >= n)
    ensures Matches(Str(IntToString(a)), Str("<" + IntToString(n))) == (a < n)
  {
    ParseIntToString(a);
    NumericComparisons(Str(IntToString(a)), a as real, n);
  }

  /** An exact workload answer matches its literal condition; another one does not. */
  lemma WorkloadExample()
    ensures Matches(Str("AI / ML"), Str("AI / ML"))
    ensures !Matches(Str("VDI"), Str("AI / ML"))
  {
    FirstCharDispatch("AI / ML");
  }

  /** 750 endpoints satisfy ">=500". */
  lemma EndpointExample(expr: string)
    requires expr == ">=500"
    ensures Matches(Int(750), Str(expr))
  {
    assert expr == ">=" + IntToString(500) by {
      assert NatToString(5) == "5";
      assert NatToString(50) == NatToString(5) + [DigitChar(0)];
      assert NatToString(500) == NatToString(50) + [DigitChar(0)];
    }
    NumericComparisons(Int(750), 750 as real, 500);
  }

  /** The answer "not-a-number" does not satisfy ">=500", and is no error. */
  lemma NonNumericEndpointExample(word: string, expr: string)
    requires word == "not-a-number" && expr == ">=500"
    ensures !Matches(Str(word), Str(expr))
  {
    assert ParseNumber(word).None? by {
      assert word[0] == 'n';
    }
    NumericFailsClosed(Str(word), "500");
    assert expr == ">=" + "500";
  }
}
