/** The rule evaluator (`RecommendationEngine.evaluate`): every rule of every
    section is tried against the answers; each rule whose conditions all hold
    contributes a record with its rendered recommendation and the defaults
    filled in; sections with no match are left out; section keys are
    title-cased. */
module Engine {
  import opened Base
  import opened Text
  import opened Values
  import opened Template
  import opened Matcher
  import opened Rules

  const DefaultReason: Value := Str("Matched conditions")
  const DefaultScore: Value := Int(1)
  const DefaultTags: Value := List([])
  const DefaultSource: Value := Str("")
  const DefaultTradeoffs: Value := Str("")

  datatype Recommendation = Recommendation(
    recommend: string,
    reason: Value,
    score: Value,
    tags: Value,
    source: Value,
    tradeoffs: Value)

  /** What makes `evaluate` raise. */
  datatype EvalError =
    | WhenNotMapping                      // `cond.items()` on a value that is not a dict
    | MissingRecommend                    // `rule["recommend"]` raises KeyError
    | RecommendNotString                  // `.format` on a value that is not a str
    | TemplateFailure(cause: FormatError) // the template itself fails

  /** Section title to records, in insertion order of the result dict. */
  type Results = seq<(string, seq<Recommendation>)>

  /** `inputs.get(field)` */
  function Lookup(inputs: Answers, field: string): (v: Value)
    ensures field !in inputs ==> v == Null
  {
    if field in inputs then inputs[field] else Null
  }

  predicate AllHold(pairs: seq<(string, Value)>, inputs: Answers) {
    forall k :: 0 <= k < |pairs| ==> Matches(Lookup(inputs, pairs[k].0), pairs[k].1)
  }

  /** Whether the rule's conditions all hold; `when` defaults to `{}`. */
  function Fires(rule: Rule, inputs: Answers): (r: Result<bool, EvalError>)
    ensures rule.when.None? ==> r == Ok(true)
    ensures r.Err? <==> rule.when.Some? && rule.when.value.NotMapping?
  {
    match rule.when
    case None => Ok(true)
    case Some(Conditions(pairs)) => Ok(AllHold(pairs, inputs))
    case Some(NotMapping(_)) => Err(WhenNotMapping)
  }

  /** The record a firing rule contributes. */
  function Recommend(rule: Rule, inputs: Answers): (r: Result<Recommendation, EvalError>)
    ensures r.Ok? <==>
      rule.recommend.Some? && rule.recommend.value.Str? && Format(rule.recommend.value.s, inputs).Ok?
    ensures r.Ok? ==>
      && r.value.recommend == Format(rule.recommend.value.s, inputs).value
      && r.value.reason == rule.reason.GetOr(DefaultReason)
      && r.value.score == rule.score.GetOr(DefaultScore)
      && r.value.tags == rule.tags.GetOr(DefaultTags)
      && r.value.source == rule.source.GetOr(DefaultSource)
      && r.value.tradeoffs == rule.tradeoffs.GetOr(DefaultTradeoffs)
  {
    match rule.recommend
    case None => Err(MissingRecommend)
    case Some(Str(template)) =>
      (match Format(template, inputs)
       case Err(e) => Err(TemplateFailure(e))
       case Ok(text) =>
         Ok(Recommendation(
           text,
           rule.reason.GetOr(DefaultReason),
           rule.score.GetOr(DefaultScore),
           rule.tags.GetOr(DefaultTags),
           rule.source.GetOr(DefaultSource),
           rule.tradeoffs.GetOr(DefaultTradeoffs))))
    case Some(_) => Err(RecommendNotString)
  }

  /** One pass of the inner loop: no record, a record, or the error raised. */
  function Step(rule: Rule, inputs: Answers): Result<Option<Recommendation>, EvalError> {
    match Fires(rule, inputs)
    case Err(e) => Err(e)
    case Ok(fires) =>
      if !fires then Ok(None)
      else
        match Recommend(rule, inputs)
        case Err(e) => Err(e)
        case Ok(rec) => Ok(Some(rec))
  }

  /** The `matches` list of one section, or the first error met. */
  function SectionMatches(rules: seq<Rule>, inputs: Answers): Result<seq<Recommendation>, EvalError>
    decreases |rules|
  {
    if rules == [] then Ok([])
    else
      match SectionMatches(rules[..|rules| - 1], inputs)
      case Err(e) => Err(e)
      case Ok(ms) =>
        match Step(rules[|rules| - 1], inputs)
        case Err(e) => Err(e)
        case Ok(None) => Ok(ms)
        case Ok(Some(rec)) => Ok(ms + [rec])
  }

  /** `section.replace("_", " ").title()` */
  function SectionTitle(name: string): string {
    Title(ReplaceChar(name, '_', ' '))
  }

  /** `results[key] = v`: replaces the value of an existing key in place,
      otherwise appends. */
  function Put(results: Results, key: string, v: seq<Recommendation>): Results {
    if results == [] then [(key, v)]
    else if results[0].0 == key then [(key, v)] + results[1..]
    else [results[0]] + Put(results[1..], key, v)
  }

  /** The result of `evaluate` on the first sections of the rule set. */
  function Evaluation(rs: RuleSet, inputs: Answers): Result<Results, EvalError>
    decreases |rs|
  {
    if rs == [] then Ok([])
    else
      match Evaluation(rs[..|rs| - 1], inputs)
      case Err(e) => Err(e)
      case Ok(results) =>
        var (section, rules) := rs[|rs| - 1];
        match SectionMatches(rules, inputs)
        case Err(e) => Err(e)
        case Ok(ms) => Ok(if ms == [] then results else Put(results, SectionTitle(section), ms))
  }

  class RecommendationEngine {
    const rules: RuleSet

    constructor (rules: RuleSet)
      ensures this.rules == rules
    {
      this.rules := rules;
    }

    /** `evaluate(inputs)`; it changes nothing, so repeated calls agree. */
    method Evaluate(inputs: Answers) returns (r: Result<Results, EvalError>)
      ensures r == Evaluation(rules, inputs)
    {
      var results: Results := [];
      for i := 0 to |rules|
        invariant Evaluation(rules[..i], inputs) == Ok(results)
      {
        var (section, sectionRules) := rules[i];
        assert rules[..i + 1][..i] == rules[..i];
        var matches: seq<Recommendation> := [];
        for j := 0 to |sectionRules|
          invariant SectionMatches(sectionRules[..j], inputs) == Ok(matches)
        {
          var rule := sectionRules[j];
          assert sectionRules[..j + 1][..j] == sectionRules[..j];
          var fires := Fires(rule, inputs);
          if fires.Err? {
            SectionErrorSticks(sectionRules, j + 1, inputs);
            EvaluationErrorSticks(rules, i + 1, inputs);
            return Err(fires.error);
          }
          if fires.value {
            var rec := Recommend(rule, inputs);
            if rec.Err? {
              SectionErrorSticks(sectionRules, j + 1, inputs);
              EvaluationErrorSticks(rules, i + 1, inputs);
              return Err(rec.error);
            }
            matches := matches + [rec.value];
          }
        }
        assert sectionRules[..|sectionRules|] == sectionRules;
        if matches != [] {
          results := Put(results, SectionTitle(section), matches);
        }
      }
      assert rules[..|rules|] == rules;
      r := Ok(results);
    }
  }

  // ---------------------------------------------------------------- error propagation

  /** An error in the first `n` rules of a section is the section's error. */
  lemma {:induction false} SectionErrorSticks(rules: seq<Rule>, n: nat, inputs: Answers)
    requires n <= |rules| && SectionMatches(rules[..n], inputs).Err?
    ensures SectionMatches(rules, inputs) == SectionMatches(rules[..n], inputs)
    decreases |rules| - n
  {
    if n < |rules| {
      assert rules[..n + 1][..n] == rules[..n];
      SectionErrorSticks(rules, n + 1, inputs);
    } else {
      assert rules[..n] == rules;
    }
  }

  /** An error in the first `n` sections is the evaluation's error. */
  lemma {:induction false} EvaluationErrorSticks(rs: RuleSet, n: nat, inputs: Answers)
    requires n <= |rs| && Evaluation(rs[..n], inputs).Err?
    ensures Evaluation(rs, inputs) == Evaluation(rs[..n], inputs)
    decreases |rs| - n
  {
    if n < |rs| {
      assert rs[..n + 1][..n] == rs[..n];
      EvaluationErrorSticks(rs, n + 1, inputs);
    } else {
      assert rs[..n] == rs;
    }
  }

  // ---------------------------------------------------------------- sections

  /** The matches of a concatenation are the matches of the first part
      followed by those of the second; the first error met wins. */
  lemma {:induction false} SectionMatchesAppend(a: seq<Rule>, b: seq<Rule>, inputs: Answers)
    ensures SectionMatches(a + b, inputs) ==
      match SectionMatches(a, inputs)
      case Err(e) => Err(e)
      case Ok(x) => (match SectionMatches(b, inputs) case Err(e) => Err(e) case Ok(y) => Ok(x + y))
    decreases |b|
  {
    if b == [] {
      assert a + b == a;
      match SectionMatches(a, inputs)
      case Err(_) =>
      case Ok(x) => assert x + [] == x;
    } else {
      var c := b[..|b| - 1];
      assert (a + b)[..|a + b| - 1] == a + c;
      assert (a + b)[|a + b| - 1] == b[|b| - 1];
      SectionMatchesAppend(a, c, inputs);
      match SectionMatches(a, inputs)
      case Err(_) =>
      case Ok(x) =>
        match SectionMatches(c, inputs)
        case Err(_) =>
        case Ok(y) =>
          match Step(b[|b| - 1], inputs)
          case Ok(Some(rec)) => ConcatAssociates(x, y, [rec]);
          case _ =>
    }
  }

  /** A section of one rule: nothing when it does not fire, its record when
      it does. */
  lemma SectionMatchesOne(rule: Rule, inputs: Answers)
    ensures SectionMatches([rule], inputs) ==
      match Step(rule, inputs)
      case Err(e) => Err(e)
      case Ok(None) => Ok([])
      case Ok(Some(rec)) => Ok([rec])
  {
    assert [rule][..0] == [] && [rule][0] == rule;
    assert SectionMatches([], inputs) == Ok([]);
    forall rec: Recommendation ensures [] + [rec] == [rec] { }
  }

  /** Within a section the records keep rule order: rule `k`'s record, if
      any, comes after those of the rules before it and before those after it. */
  lemma SectionMatchesSplit(rules: seq<Rule>, k: nat, inputs: Answers)
    requires k < |rules|
    requires SectionMatches(rules, inputs).Ok?
    ensures SectionMatches(rules[..k], inputs).Ok? && Step(rules[k], inputs).Ok?
      && SectionMatches(rules[k + 1..], inputs).Ok?
    ensures SectionMatches(rules, inputs).value ==
      SectionMatches(rules[..k], inputs).value
      + (if Step(rules[k], inputs).value.Some? then [Step(rules[k], inputs).value.value] else [])
      + SectionMatches(rules[k + 1..], inputs).value
  {
    assert rules == rules[..k] + [rules[k]] + rules[k + 1..];
    SectionMatchesAppend(rules[..k] + [rules[k]], rules[k + 1..], inputs);
    SectionMatchesAppend(rules[..k], [rules[k]], inputs);
    SectionMatchesOne(rules[k], inputs);
  }

  /** A section evaluates without error exactly when each of its rules does. */
  lemma {:induction false} SectionMatchesOkIff(rules: seq<Rule>, inputs: Answers)
    ensures SectionMatches(rules, inputs).Ok? <==> forall k :: 0 <= k < |rules| ==> Step(rules[k], inputs).Ok?
    decreases |rules|
  {
    if rules != [] {
      var init := rules[..|rules| - 1];
      SectionMatchesOkIff(init, inputs);
      StepsOkStep(rules, init, inputs);
    }
  }

  /** Every rule of `rules` steps without error exactly when every rule of
      its prefix `init` and its last rule do. */
  lemma StepsOkStep(rules: seq<Rule>, init: seq<Rule>, inputs: Answers)
    requires rules != [] && init == rules[..|rules| - 1]
    ensures (forall k :: 0 <= k < |rules| ==> Step(rules[k], inputs).Ok?) <==>
      (forall k :: 0 <= k < |init| ==> Step(init[k], inputs).Ok?) && Step(rules[|rules| - 1], inputs).Ok?
  {
    assert forall k :: 0 <= k < |init| ==> init[k] == rules[k];
  }

  /** A section in which no rule fires contributes no records. */
  lemma {:induction false} SectionMatchesNoneFire(rules: seq<Rule>, inputs: Answers)
    requires forall k :: 0 <= k < |rules| ==> Step(rules[k], inputs) == Ok(None)
    ensures SectionMatches(rules, inputs) == Ok([])
    decreases |rules|
  {
    if rules != [] {
      var init := rules[..|rules| - 1];
      assert forall k :: 0 <= k < |init| ==> init[k] == rules[k];
      SectionMatchesNoneFire(init, inputs);
    }
  }

  /** A section in which every rule fires contributes one record per rule,
      in rule order. */
  lemma {:induction false} SectionMatchesAllFire(rules: seq<Rule>, inputs: Answers)
    requires forall k :: 0 <= k < |rules| ==> Step(rules[k], inputs).Ok? && Step(rules[k], inputs).value.Some?
    ensures SectionMatches(rules, inputs).Ok?
    ensures |SectionMatches(rules, inputs).value| == |rules|
    ensures forall k :: 0 <= k < |rules| ==> SectionMatches(rules, inputs).value[k] == Step(rules[k], inputs).value.value
    decreases |rules|
  {
    if rules != [] {
      var init := rules[..|rules| - 1];
      var last := rules[|rules| - 1];
      assert forall k :: 0 <= k < |init| ==> Step(init[k], inputs).Ok? && Step(init[k], inputs).value.Some? by {
        assert forall k :: 0 <= k < |init| ==> init[k] == rules[k];
      }
      SectionMatchesAllFire(init, inputs);
      var ms := SectionMatches(init, inputs).value;
      assert SectionMatches(rules, inputs) == Ok(ms + [Step(last, inputs).value.value]);
      FiredStep(rules, init, inputs, ms);
    }
  }

  /** Appending the last rule's record to the records of the prefix keeps
      position `k` the record of rule `k`. */
  lemma FiredStep(rules: seq<Rule>, init: seq<Rule>, inputs: Answers, ms: seq<Recommendation>)
    requires rules != [] && init == rules[..|rules| - 1]
    requires Step(rules[|rules| - 1], inputs).Ok? && Step(rules[|rules| - 1], inputs).value.Some?
    requires |ms| == |init| && forall k :: 0 <= k < |init| ==> Step(init[k], inputs).Ok? && Step(init[k], inputs).value.Some?
    requires forall k :: 0 <= k < |init| ==> ms[k] == Step(init[k], inputs).value.value
    ensures forall k :: 0 <= k < |rules| ==>
      (ms + [Step(rules[|rules| - 1], inputs).value.value])[k] == Step(rules[k], inputs).value.value
  {
    assert forall k :: 0 <= k < |init| ==> init[k] == rules[k];
  }

  /** A rule with no `when`, or an empty one, fires on every answers map. */
  lemma VacuousRuleFires(rule: Rule, inputs: Answers)
    requires rule.when.None? || rule.when == Some(Conditions([]))
    ensures Fires(rule, inputs) == Ok(true)
  {
  }

  // ---------------------------------------------------------------- results

  function KeysOf(results: Results): set<string> {
    set k | 0 <= k < |results| :: results[k].0
  }

  predicate UniqueKeys(results: Results) {
    forall i, j :: 0 <= i < j < |results| ==> results[i].0 != results[j].0
  }

  lemma KeysOfCons(e: (string, seq<Recommendation>), rest: Results)
    ensures KeysOf([e] + rest) == {e.0} + KeysOf(rest)
  {
    var r := [e] + rest;
    assert r[0].0 == e.0;
    forall x | x in KeysOf(r) ensures x in {e.0} + KeysOf(rest) {
      var i :| 0 <= i < |r| && r[i].0 == x;
      if i > 0 { assert rest[i - 1] == r[i]; }
    }
    forall x | x in KeysOf(rest) ensures x in KeysOf(r) {
      var i :| 0 <= i < |rest| && rest[i].0 == x;
      assert r[i + 1] == rest[i];
    }
  }

  lemma UniqueKeysCons(e: (string, seq<Recommendation>), rest: Results)
    ensures UniqueKeys([e] + rest) ==> UniqueKeys(rest) && e.0 !in KeysOf(rest)
    ensures UniqueKeys(rest) && e.0 !in KeysOf(rest) ==> UniqueKeys([e] + rest)
  {
    var r := [e] + rest;
    if UniqueKeys(r) {
      forall i, j | 0 <= i < j < |rest| ensures rest[i].0 != rest[j].0 {
        assert rest[i] == r[i + 1] && rest[j] == r[j + 1];
      }
      forall j | 0 <= j < |rest| ensures rest[j].0 != e.0 {
        assert r[0] == e && r[j + 1] == rest[j];
      }
    }
    if UniqueKeys(rest) && e.0 !in KeysOf(rest) {
      forall i, j | 0 <= i < j < |r| ensures r[i].0 != r[j].0 {
        assert r[j] == rest[j - 1];
        if i > 0 { assert r[i] == rest[i - 1]; } else { assert r[i] == e && rest[j - 1].0 in KeysOf(rest); }
      }
    }
  }

  lemma {:induction false} PutKeys(results: Results, key: string, v: seq<Recommendation>)
    ensures KeysOf(Put(results, key, v)) == KeysOf(results) + {key}
  {
    if results == [] {
      KeysOfCons((key, v), []);
    } else {
      assert results == [results[0]] + results[1..];
      KeysOfCons(results[0], results[1..]);
      if results[0].0 == key {
        KeysOfCons((key, v), results[1..]);
      } else {
        PutKeys(results[1..], key, v);
        KeysOfCons(results[0], Put(results[1..], key, v));
      }
    }
  }

  lemma {:induction false} PutEntries(results: Results, key: string, v: seq<Recommendation>)
    requires UniqueKeys(results)
    ensures UniqueKeys(Put(results, key, v))
    ensures (key, v) in Put(results, key, v)
    ensures forall e :: e in Put(results, key, v) ==> e == (key, v) || (e in results && e.0 != key)
    ensures forall e :: e in results && e.0 != key ==> e in Put(results, key, v)
  {
    if results == [] {
      UniqueKeysCons((key, v), []);
    } else {
      var rest := results[1..];
      assert results == [results[0]] + rest;
      UniqueKeysCons(results[0], rest);
      if results[0].0 == key {
        UniqueKeysCons((key, v), rest);
        forall e | e in rest ensures e.0 != key {
          var j :| 0 <= j < |rest| && rest[j] == e;
        }
      } else {
        PutEntries(rest, key, v);
        PutKeys(rest, key, v);
        UniqueKeysCons(results[0], Put(rest, key, v));
      }
    }
  }

  /** Dict assignment: the key now maps to the new value, every other entry
      stays, no key appears twice. */
  lemma PutSpec(results: Results, key: string, v: seq<Recommendation>)
    requires UniqueKeys(results)
    ensures UniqueKeys(Put(results, key, v))
    ensures KeysOf(Put(results, key, v)) == KeysOf(results) + {key}
    ensures (key, v) in Put(results, key, v)
    ensures forall e :: e in Put(results, key, v) ==> e == (key, v) || (e in results && e.0 != key)
    ensures forall e :: e in results && e.0 != key ==> e in Put(results, key, v)
  {
    PutKeys(results, key, v);
    PutEntries(results, key, v);
  }

  // ---------------------------------------------------------------- evaluation

  /** A section that evaluates without error and matched at least once. */
  predicate Contributes(section: (string, seq<Rule>), inputs: Answers) {
    SectionMatches(section.1, inputs).Ok? && SectionMatches(section.1, inputs).value != []
  }

  /** The section `section` puts the key `key` into the results. */
  predicate ContributesTo(section: (string, seq<Rule>), inputs: Answers, key: string) {
    SectionTitle(section.0) == key && Contributes(section, inputs)
  }

  /** `evaluate` raises exactly when some section, hence some rule, does. */
  lemma {:induction false} EvaluationOkIff(rs: RuleSet, inputs: Answers)
    ensures Evaluation(rs, inputs).Ok? <==> forall i :: 0 <= i < |rs| ==> SectionMatches(rs[i].1, inputs).Ok?
    decreases |rs|
  {
    if rs != [] {
      EvaluationOkIff(rs[..|rs| - 1], inputs);
      SectionsOkStep(rs, rs[..|rs| - 1], inputs);
    }
  }

  /** Every section of `rs` is `Ok?` exactly when every section of its
      prefix `init` and its last section are. */
  lemma SectionsOkStep(rs: RuleSet, init: RuleSet, inputs: Answers)
    requires rs != [] && init == rs[..|rs| - 1]
    ensures (forall i :: 0 <= i < |rs| ==> SectionMatches(rs[i].1, inputs).Ok?) <==>
      (forall i :: 0 <= i < |init| ==> SectionMatches(init[i].1, inputs).Ok?) &&
      SectionMatches(rs[|rs| - 1].1, inputs).Ok?
  {
    assert forall i :: 0 <= i < |init| ==> init[i] == rs[i];
  }

  /** A rule that raises aborts the whole evaluation, whatever section it is in. */
  lemma RuleErrorAborts(rs: RuleSet, i: nat, k: nat, inputs: Answers)
    requires i < |rs| && k < |rs[i].1|
    requires Step(rs[i].1[k], inputs).Err?
    ensures Evaluation(rs, inputs).Err?
  {
    SectionMatchesOkIff(rs[i].1, inputs);
    EvaluationOkIff(rs, inputs);
  }

  /** A template naming an answer that was not given aborts the evaluation
      when its rule fires. */
  lemma MissingFieldAborts(rs: RuleSet, i: nat, k: nat, inputs: Answers, name: string)
    requires i < |rs| && k < |rs[i].1|
    requires Fires(rs[i].1[k], inputs) == Ok(true)
    requires rs[i].1[k].recommend.Some? && rs[i].1[k].recommend.value.Str?
    requires Format(rs[i].1[k].recommend.value.s, inputs) == Err(MissingField(name))
    ensures Evaluation(rs, inputs).Err?
  {
    RuleErrorAborts(rs, i, k, inputs);
  }

  /** Every key of the result is distinct and no key holds an empty list. */
  lemma {:induction false} EvaluationShape(rs: RuleSet, inputs: Answers)
    requires Evaluation(rs, inputs).Ok?
    ensures UniqueKeys(Evaluation(rs, inputs).value)
    ensures forall e :: e in Evaluation(rs, inputs).value ==> e.1 != []
    decreases |rs|
  {
    if rs != [] {
      var init := rs[..|rs| - 1];
      EvaluationShape(init, inputs);
      var results := Evaluation(init, inputs).value;
      var (section, rules) := rs[|rs| - 1];
      var ms := SectionMatches(rules, inputs).value;
      if ms != [] {
        PutEntries(results, SectionTitle(section), ms);
      }
    }
  }

  /** A title is a key of the result exactly when some section with that
      title matched. */
  lemma EvaluationKeys(rs: RuleSet, inputs: Answers)
    requires Evaluation(rs, inputs).Ok?
    ensures forall key :: key in KeysOf(Evaluation(rs, inputs).value) <==>
      exists i :: 0 <= i < |rs| && ContributesTo(rs[i], inputs, key)
  {
    EvaluationContributors(rs, inputs);
    forall key ensures key in Contributors(rs, inputs) <==>
      exists i :: 0 <= i < |rs| && ContributesTo(rs[i], inputs, key)
    {
      ContributorsHas(rs, inputs, key);
    }
  }

  /** The titles the sections of `rs` contribute, section by section. */
  ghost function Contributors(rs: RuleSet, inputs: Answers): set<string>
    decreases |rs|
  {
    if rs == [] then {}
    else
      Contributors(rs[..|rs| - 1], inputs) +
        (if Contributes(rs[|rs| - 1], inputs) then {SectionTitle(rs[|rs| - 1].0)} else {})
  }

  lemma {:induction false} EvaluationContributors(rs: RuleSet, inputs: Answers)
    requires Evaluation(rs, inputs).Ok?
    ensures KeysOf(Evaluation(rs, inputs).value) == Contributors(rs, inputs)
    decreases |rs|
  {
    if rs != [] {
      EvaluationKeysStep(rs, inputs);
      EvaluationContributors(rs[..|rs| - 1], inputs);
    }
  }

  lemma {:induction false} ContributorsHas(rs: RuleSet, inputs: Answers, key: string)
    ensures key in Contributors(rs, inputs) <==> exists i :: 0 <= i < |rs| && ContributesTo(rs[i], inputs, key)
    decreases |rs|
  {
    if rs != [] {
      var init := rs[..|rs| - 1];
      ContributorsHas(init, inputs, key);
      ContributorsExistsStep(rs, init, inputs, key);
    }
  }

  /** A section of `rs` contributes `key` exactly when a section of its
      prefix `init` or its last section does. */
  lemma ContributorsExistsStep(rs: RuleSet, init: RuleSet, inputs: Answers, key: string)
    requires rs != [] && init == rs[..|rs| - 1]
    ensures (exists i :: 0 <= i < |rs| && ContributesTo(rs[i], inputs, key)) <==>
      (exists i :: 0 <= i < |init| && ContributesTo(init[i], inputs, key)) || ContributesTo(rs[|rs| - 1], inputs, key)
  {
    ExistsStep(rs, init, section => ContributesTo(section, inputs, key));
  }

  /** One section's contribution to the key set. */
  lemma EvaluationKeysStep(rs: RuleSet, inputs: Answers)
    requires rs != [] && Evaluation(rs, inputs).Ok?
    ensures Evaluation(rs[..|rs| - 1], inputs).Ok?
    ensures KeysOf(Evaluation(rs, inputs).value) ==
      KeysOf(Evaluation(rs[..|rs| - 1], inputs).value) +
        (if Contributes(rs[|rs| - 1], inputs) then {SectionTitle(rs[|rs| - 1].0)} else {})
  {
    var results := Evaluation(rs[..|rs| - 1], inputs).value;
    var last := rs[|rs| - 1];
    var ms := SectionMatches(last.1, inputs).value;
    if ms != [] {
      PutKeys(results, SectionTitle(last.0), ms);
    } else {
      assert KeysOf(results) + {} == KeysOf(results);
    }
  }

  /** One step of the outer loop, for a successful evaluation. */
  lemma EvaluationLast(rs: RuleSet, inputs: Answers)
    requires rs != [] && Evaluation(rs, inputs).Ok?
    ensures Evaluation(rs[..|rs| - 1], inputs).Ok? && SectionMatches(rs[|rs| - 1].1, inputs).Ok?
    ensures var results := Evaluation(rs[..|rs| - 1], inputs).value;
      var ms := SectionMatches(rs[|rs| - 1].1, inputs).value;
      Evaluation(rs, inputs).value == if ms == [] then results else Put(results, SectionTitle(rs[|rs| - 1].0), ms)
  {
  }

  /** Section `i` is the last section titled `key` that matched, and its
      matches are `v`. */
  predicate LastMatchUnder(rs: RuleSet, inputs: Answers, i: int, key: string, v: seq<Recommendation>) {
    && 0 <= i < |rs|
    && SectionTitle(rs[i].0) == key
    && SectionMatches(rs[i].1, inputs) == Ok(v)
    && forall j :: i < j < |rs| ==> !ContributesTo(rs[j], inputs, key)
  }

  /** Appending a section that does not match under `key` keeps the last
      match under `key`. */
  lemma LastMatchExtend(rs: RuleSet, inputs: Answers, i: int, key: string, v: seq<Recommendation>)
    requires rs != [] && LastMatchUnder(rs[..|rs| - 1], inputs, i, key, v)
    requires !ContributesTo(rs[|rs| - 1], inputs, key)
    ensures LastMatchUnder(rs, inputs, i, key, v)
  {
    var init := rs[..|rs| - 1];
    assert init[i] == rs[i];
    forall j | i < j < |rs| ensures !ContributesTo(rs[j], inputs, key) {
      if j < |init| {
        assert init[j] == rs[j];
      }
    }
  }

  /** Sections whose titles collide overwrite each other: the value under a
      key is the matches of the LAST section with that title that matched. */
  lemma {:induction false} EvaluationLastWins(rs: RuleSet, inputs: Answers, key: string, v: seq<Recommendation>)
    requires Evaluation(rs, inputs).Ok? && (key, v) in Evaluation(rs, inputs).value
    ensures exists i :: LastMatchUnder(rs, inputs, i, key, v)
    decreases |rs|
  {
    var n := |rs| - 1;
    var init := rs[..n];
    EvaluationLast(rs, inputs);
    var results := Evaluation(init, inputs).value;
    var title := SectionTitle(rs[n].0);
    var ms := SectionMatches(rs[n].1, inputs).value;
    if ms != [] {
      EvaluationShape(init, inputs);
      PutEntries(results, title, ms);
    }
    if ms != [] && key == title {
      assert v == ms;
      assert LastMatchUnder(rs, inputs, n, key, v);
    } else {
      assert (key, v) in results;
      EvaluationLastWins(init, inputs, key, v);
      var i :| LastMatchUnder(init, inputs, i, key, v);
      LastMatchExtend(rs, inputs, i, key, v);
    }
  }

  /** The last section that matched under a title supplies that title's
      value. */
  lemma EvaluationEntry(rs: RuleSet, inputs: Answers, i: nat)
    requires Evaluation(rs, inputs).Ok? && i < |rs| && Contributes(rs[i], inputs)
    requires forall j :: i < j < |rs| ==> !ContributesTo(rs[j], inputs, SectionTitle(rs[i].0))
    ensures (SectionTitle(rs[i].0), SectionMatches(rs[i].1, inputs).value) in Evaluation(rs, inputs).value
  {
    var res := Evaluation(rs, inputs).value;
    var key := SectionTitle(rs[i].0);
    EvaluationKeys(rs, inputs);
    assert key in KeysOf(res);
    var k :| 0 <= k < |res| && res[k].0 == key;
    assert res[k] in res;
    EvaluationLastWins(rs, inputs, key, res[k].1);
    var i' :| LastMatchUnder(rs, inputs, i', key, res[k].1);
    EvaluationShape(rs, inputs);
    assert Contributes(rs[i'], inputs);
    assert i' == i;
  }

  /** When nothing matches the result is empty. */
  lemma {:induction false} NothingMatchesEmpty(rs: RuleSet, inputs: Answers)
    requires forall i :: 0 <= i < |rs| ==> SectionMatches(rs[i].1, inputs) == Ok([])
    ensures Evaluation(rs, inputs) == Ok([])
    decreases |rs|
  {
    if rs != [] {
      var init := rs[..|rs| - 1];
      assert forall i :: 0 <= i < |init| ==> init[i] == rs[i];
      NothingMatchesEmpty(init, inputs);
    }
  }

  // ---------------------------------------------------------------- section titles

  /** `replace("_", " ").title()`: an underscore becomes a space, a letter
      after a letter becomes lower case, a letter starting a word becomes
      upper case. */
  lemma SectionTitleWords(name: string)
    ensures |SectionTitle(name)| == |name|
    ensures forall i :: 0 <= i < |name| && name[i] == '_' ==> SectionTitle(name)[i] == ' '
    ensures forall i :: 0 <= i < |name| && (i == 0 || name[i - 1] == '_') && name[i] != '_' ==>
      SectionTitle(name)[i] == ToUpper(name[i])
    ensures forall i :: 0 < i < |name| && IsCased(name[i - 1]) && name[i] != '_' ==>
      SectionTitle(name)[i] == ToLower(name[i])
  {
    var spaced := ReplaceChar(name, '_', ' ');
    var t := SectionTitle(name);
    TitleAt(spaced);
    forall i | 0 <= i < |name|
      ensures name[i] == '_' ==> t[i] == ' '
      ensures (i == 0 || name[i - 1] == '_') && name[i] != '_' ==> t[i] == ToUpper(name[i])
      ensures i > 0 && IsCased(name[i - 1]) && name[i] != '_' ==> t[i] == ToLower(name[i])
    {
      assert spaced[i] == if name[i] == '_' then ' ' else name[i];
      if i > 0 {
        assert spaced[i - 1] == if name[i - 1] == '_' then ' ' else name[i - 1];
      }
    }
  }

  /** "power_cooling" reads as the two words "power" and "cooling". */
  lemma PowerCoolingWords(name: string)
    requires name == "power_cooling"
    ensures ReplaceChar(name, '_', ' ') == ['p'] + "ower" + [' '] + ['c'] + "ooling"
  {
  }

  lemma PowerCoolingTitle(name: string)
    requires name == "power_cooling"
    ensures SectionTitle(name) == "Power Cooling"
  {
    PowerCoolingWords(name);
    TitleTwoWords('p', "ower", 'c', "ooling");
  }

  /** Two rules of one section that both fire are both kept, in rule order. */
  lemma BothMatchingRulesKept(name: string, first: Rule, second: Rule, inputs: Answers)
    requires Step(first, inputs).Ok? && Step(first, inputs).value.Some?
    requires Step(second, inputs).Ok? && Step(second, inputs).value.Some?
    ensures Evaluation([(name, [first, second])], inputs) ==
      Ok([(SectionTitle(name), [Step(first, inputs).value.value, Step(second, inputs).value.value])])
  {
    var rules := [first, second];
    SectionMatchesAllFire(rules, inputs);
    var ms := SectionMatches(rules, inputs).value;
    assert ms == [Step(first, inputs).value.value, Step(second, inputs).value.value];
    var rs: RuleSet := [(name, rules)];
    assert rs[..0] == [];
    assert Evaluation(rs, inputs) == Ok(Put([], SectionTitle(name), ms));
  }

  /** The "power_cooling" section with two firing rules yields both records
      under "Power Cooling". */
  lemma PowerCoolingExample(first: Rule, second: Rule, inputs: Answers)
    requires Step(first, inputs).Ok? && Step(first, inputs).value.Some?
    requires Step(second, inputs).Ok? && Step(second, inputs).value.Some?
    ensures Evaluation([("power_cooling", [first, second])], inputs) ==
      Ok([("Power Cooling", [Step(first, inputs).value.value, Step(second, inputs).value.value])])
  {
    BothMatchingRulesKept("power_cooling", first, second, inputs);
    PowerCoolingTitle("power_cooling");
  }

  /** A rule with an empty `when` and a one-field template renders the answer
      into the text, or aborts when the answer is absent. */
  lemma GreetingRule(rule: Rule, text: string, inputs: Answers, name: string)
    requires rule.when == Some(Conditions([]))
    requires rule.recommend == Some(Str(text + "{" + name + "}"))
    requires '{' !in text && '}' !in text && IsFieldName(name)
    ensures name in inputs ==>
      (Step(rule, inputs).Ok? && Step(rule, inputs).value.Some?
       && Step(rule, inputs).value.value.recommend == text + ToString(inputs[name]))
    ensures name !in inputs ==> Step(rule, inputs) == Err(TemplateFailure(MissingField(name)))
  {
    FormatPlaceholder(text, name, inputs);
  }
}
