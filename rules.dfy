/** The rule set as the evaluator and the validator receive it, already
    parsed from YAML. An absent key of a rule mapping is `None`. */
module Rules {
  import opened Base
  import opened Values

  /** Field name to answer, as the questionnaire collects them. */
  type Answers = map<string, Value>

  /** The value under a rule's `when` key: a mapping from field names to
      condition expressions, or anything else YAML can produce there. */
  datatype When =
    | Conditions(pairs: seq<(string, Value)>)
    | NotMapping(value: Value)

  datatype Rule = Rule(
    when: Option<When>,
    recommend: Option<Value>,
    reason: Option<Value>,
    score: Option<Value>,
    tags: Option<Value>,
    source: Option<Value>,
    tradeoffs: Option<Value>)

  /** Section name to rules, in the order the file lists them. */
  type RuleSet = seq<(string, seq<Rule>)>
}
