/** The rule-set validator (`validate_rules.py`): every rule of every known
    section is checked for its required keys and the types of `score`,
    `tags` and `when`; an unknown section is reported once and its rules are
    not looked at; every error is collected, none stops the run. */
module Validator {
  import opened Base
  import opened Text
  import opened Values
  import opened Rules
  import Engine

  /** `REQUIRED_KEYS` */
  const RequiredKeys: set<string> := {"recommend", "reason", "score"}

  /** `VALID_TOP_SECTIONS` */
  const ValidTopSections: set<string> :=
    {"datacenter", "power_cooling", "cybersecurity", "networking", "saas_cloud", "opportunities"}

  /** `DEFAULT_VALUES`, the suggested fix for a missing key. */
  const DefaultValues: map<string, Value> :=
    map["score" := Int(1), "tags" := List([]), "tradeoffs" := Str(""), "source" := Str("")]

  datatype ValidationError =
    | MissingKey(domain: string, idx: nat, key: string)
    | ScoreNotInteger(domain: string, idx: nat)
    | TagsNotList(domain: string, idx: nat)
    | WhenNotDictionary(domain: string, idx: nat)
    | UnknownSection(domain: string)

  /** Iterating a Python `set` visits each element once, in an order fixed
      for the run but not given by the program: each order is a parameter
      satisfying this. */
  predicate IsIterationOrder(keyOrder: seq<string>) {
    multiset(keyOrder) == multiset(RequiredKeys)
  }

  /** `key in rule` */
  predicate HasKey(rule: Rule, key: string) {
    if key == "when" then rule.when.Some?
    else if key == "recommend" then rule.recommend.Some?
    else if key == "reason" then rule.reason.Some?
    else if key == "score" then rule.score.Some?
    else if key == "tags" then rule.tags.Some?
    else if key == "source" then rule.source.Some?
    else if key == "tradeoffs" then rule.tradeoffs.Some?
    else false
  }

  /** `isinstance(v, int)`; `bool` is a subclass of `int`. */
  predicate IsInt(v: Value) {
    v.Int? || v.Bool?
  }

  /** `DEFAULT_VALUES.get(key, "?")` as the f-string prints it. */
  function Hint(key: string): string {
    if key in DefaultValues then ToString(DefaultValues[key]) else "?"
  }

  // ---------------------------------------------------------------- one rule

  /** The missing-key errors for the keys visited so far, in visiting order. */
  function MissingKeyErrors(rule: Rule, idx: nat, domain: string, keys: seq<string>): seq<ValidationError>
    decreases |keys|
  {
    if keys == [] then []
    else
      var key := keys[|keys| - 1];
      MissingKeyErrors(rule, idx, domain, keys[..|keys| - 1])
      + (if HasKey(rule, key) then [] else [MissingKey(domain, idx, key)])
  }

  function ScoreErrors(rule: Rule, idx: nat, domain: string): seq<ValidationError> {
    if rule.score.Some? && !IsInt(rule.score.value) then [ScoreNotInteger(domain, idx)] else []
  }

  function TagsErrors(rule: Rule, idx: nat, domain: string): seq<ValidationError> {
    if rule.tags.Some? && !rule.tags.value.List? then [TagsNotList(domain, idx)] else []
  }

  function WhenErrors(rule: Rule, idx: nat, domain: string): seq<ValidationError> {
    if rule.when.Some? && !rule.when.value.Conditions? then [WhenNotDictionary(domain, idx)] else []
  }

  /** What `validate_rule(rule, idx, domain)` returns when `REQUIRED_KEYS`
      is visited in `keyOrder`. */
  function RuleErrors(rule: Rule, idx: nat, domain: string, keyOrder: seq<string>): seq<ValidationError> {
    MissingKeyErrors(rule, idx, domain, keyOrder)
    + ScoreErrors(rule, idx, domain) + TagsErrors(rule, idx, domain) + WhenErrors(rule, idx, domain)
  }

  /** `validate_rule` */
  method ValidateRule(rule: Rule, idx: nat, domain: string, keyOrder: seq<string>) returns (errors: seq<ValidationError>)
    requires IsIterationOrder(keyOrder)
    ensures errors == RuleErrors(rule, idx, domain, keyOrder)
  {
    errors := [];
    for k := 0 to |keyOrder|
      invariant errors == MissingKeyErrors(rule, idx, domain, keyOrder[..k])
    {
      var key := keyOrder[k];
      assert keyOrder[..k + 1][..k] == keyOrder[..k];
      if !HasKey(rule, key) {
        errors := errors + [MissingKey(domain, idx, key)];
      }
    }
    assert keyOrder[..|keyOrder|] == keyOrder;
    if rule.score.Some? && !IsInt(rule.score.value) {
      errors := errors + [ScoreNotInteger(domain, idx)];
    }
    if rule.tags.Some? && !rule.tags.value.List? {
      errors := errors + [TagsNotList(domain, idx)];
    }
    if rule.when.Some? && !rule.when.value.Conditions? {
      errors := errors + [WhenNotDictionary(domain, idx)];
    }
  }

  // ---------------------------------------------------------------- the rule set

  /** The errors of the first rules of a known section, rule by rule. */
  function RulesErrors(domain: string, rules: seq<Rule>, keyOrder: seq<string>): seq<ValidationError>
    decreases |rules|
  {
    if rules == [] then []
    else
      RulesErrors(domain, rules[..|rules| - 1], keyOrder)
      + RuleErrors(rules[|rules| - 1], |rules| - 1, domain, keyOrder)
  }

  /** The errors one section contributes. */
  function SectionErrors(domain: string, rules: seq<Rule>, keyOrder: seq<string>): seq<ValidationError> {
    if domain !in ValidTopSections then [UnknownSection(domain)] else RulesErrors(domain, rules, keyOrder)
  }

  /** The error list the loop of `validate_file` collects over the first
      sections. */
  function RuleSetErrors(rs: RuleSet, keyOrder: seq<string>): seq<ValidationError>
    decreases |rs|
  {
    if rs == [] then []
    else RuleSetErrors(rs[..|rs| - 1], keyOrder) + SectionErrors(rs[|rs| - 1].0, rs[|rs| - 1].1, keyOrder)
  }

  lemma RuleSetErrorsStep(rs: RuleSet, i: nat, keyOrder: seq<string>)
    requires i < |rs|
    ensures RuleSetErrors(rs[..i + 1], keyOrder) == RuleSetErrors(rs[..i], keyOrder) + SectionErrors(rs[i].0, rs[i].1, keyOrder)
  {
    assert rs[..i + 1][..i] == rs[..i];
  }

  lemma RulesErrorsStep(domain: string, rules: seq<Rule>, idx: nat, keyOrder: seq<string>)
    requires idx < |rules|
    ensures RulesErrors(domain, rules[..idx + 1], keyOrder) ==
      RulesErrors(domain, rules[..idx], keyOrder) + RuleErrors(rules[idx], idx, domain, keyOrder)
  {
    assert rules[..idx + 1][..idx] == rules[..idx];
  }

  /** The loop of `validate_file` over an already-loaded rule set. */
  method ValidateRuleSet(rs: RuleSet, keyOrder: seq<string>) returns (errors: seq<ValidationError>)
    requires IsIterationOrder(keyOrder)
    ensures errors == RuleSetErrors(rs, keyOrder)
  {
    errors := [];
    for i := 0 to |rs|
      invariant errors == RuleSetErrors(rs[..i], keyOrder)
    {
      var (domain, ruleList) := rs[i];
      RuleSetErrorsStep(rs, i, keyOrder);
      if domain !in ValidTopSections {
        errors := errors + [UnknownSection(domain)];
        continue;
      }
      var sectionStart := errors;
      for idx := 0 to |ruleList|
        invariant errors == sectionStart + RulesErrors(domain, ruleList[..idx], keyOrder)
      {
        var ruleErrors := ValidateRule(ruleList[idx], idx, domain, keyOrder);
        RulesErrorsStep(domain, ruleList, idx, keyOrder);
        ConcatAssociates(sectionStart, RulesErrors(domain, ruleList[..idx], keyOrder), ruleErrors);
        errors := errors + ruleErrors;
      }
      assert ruleList[..|ruleList|] == ruleList;
    }
    assert rs[..|rs|] == rs;
  }

  /** The text `validate_file` prints for an error. */
  function Message(e: ValidationError): string {
    match e
    case MissingKey(domain, idx, key) =>
      "[" + domain + "] Rule #" + IntToString(idx + 1) + " missing key: '" + key + "'  → Suggest: " + key + ": " + Hint(key)
    case ScoreNotInteger(domain, idx) => "[" + domain + "] Rule #" + IntToString(idx + 1) + " score must be an integer"
    case TagsNotList(domain, idx) => "[" + domain + "] Rule #" + IntToString(idx + 1) + " tags must be a list"
    case WhenNotDictionary(domain, idx) => "[" + domain + "] Rule #" + IntToString(idx + 1) + " when must be a dictionary"
    case UnknownSection(domain) => "Unknown section: " + domain
  }

  /** Rules are numbered from 1 in the report: the first rule of a section
      without a score is "Rule #1", with the suggested fix `score: 1`. */
  lemma MissingScoreMessage(domain: string, key: string)
    requires key == "score"
    ensures Message(MissingKey(domain, 0, key)) ==
      "[" + domain + "] Rule #1 missing key: '" + key + "'  → Suggest: " + key + ": 1"
  {
    assert IntToString(0 + 1) == "1" by {
      assert NatToString(1) == [DigitChar(1)];
    }
    RequiredKeyHints();
    var d := "[" + domain;
    ConcatAssociates(d, "] Rule #", "1");
    ConcatAssociates(d, "] Rule #" + "1", " missing key: '");
    assert "] Rule #" + "1" + " missing key: '" == "] Rule #1 missing key: '";
    var p := "[" + domain + "] Rule #1 missing key: '" + key + "'  → Suggest: " + key;
    ConcatAssociates(p, ": ", "1");
    assert ": " + "1" == ": 1";
  }

  // ---------------------------------------------------------------- one rule: properties

  /** All required keys present, an integer score, list-or-absent tags and
      dict-or-absent `when`. */
  predicate WellFormed(rule: Rule) {
    && (forall key :: key in RequiredKeys ==> HasKey(rule, key))
    && (rule.score.Some? ==> IsInt(rule.score.value))
    && (rule.tags.Some? ==> rule.tags.value.List?)
    && (rule.when.Some? ==> rule.when.value.Conditions?)
  }

  /** The missing-key errors for a visiting order: one per visit of a key the
      rule lacks, and nothing else. */
  lemma {:induction false} MissingKeyErrorsCount(rule: Rule, idx: nat, domain: string, keys: seq<string>, e: ValidationError)
    ensures multiset(MissingKeyErrors(rule, idx, domain, keys))[e] ==
      if e.MissingKey? && e.domain == domain && e.idx == idx && !HasKey(rule, e.key) then multiset(keys)[e.key] else 0
    decreases |keys|
  {
    if keys != [] {
      var init := keys[..|keys| - 1];
      var key := keys[|keys| - 1];
      assert keys == init + [key];
      MissingKeyErrorsCount(rule, idx, domain, init, e);
    }
  }

  /** Each required key the rule lacks is reported exactly once, with the
      rule's section and position; a key it has, or that is not required, is
      never reported. */
  lemma MissingKeyReportedOnce(rule: Rule, idx: nat, domain: string, keyOrder: seq<string>, key: string)
    requires IsIterationOrder(keyOrder)
    ensures multiset(RuleErrors(rule, idx, domain, keyOrder))[MissingKey(domain, idx, key)] ==
      if key in RequiredKeys && !HasKey(rule, key) then 1 else 0
  {
    MissingKeyErrorsCount(rule, idx, domain, keyOrder, MissingKey(domain, idx, key));
  }

  /** The errors for a rule are the same, up to order, whichever order the
      set of required keys is visited in. */
  lemma RuleErrorsOrderIndependent(rule: Rule, idx: nat, domain: string, order1: seq<string>, order2: seq<string>)
    requires IsIterationOrder(order1) && IsIterationOrder(order2)
    ensures multiset(RuleErrors(rule, idx, domain, order1)) == multiset(RuleErrors(rule, idx, domain, order2))
  {
    forall e ensures multiset(MissingKeyErrors(rule, idx, domain, order1))[e] == multiset(MissingKeyErrors(rule, idx, domain, order2))[e] {
      MissingKeyErrorsCount(rule, idx, domain, order1, e);
      MissingKeyErrorsCount(rule, idx, domain, order2, e);
    }
    assert multiset(MissingKeyErrors(rule, idx, domain, order1)) == multiset(MissingKeyErrors(rule, idx, domain, order2));
  }

  /** A present score that is not an integer gives one error; a missing score
      gives the missing-key error and never the type error; a boolean passes. */
  lemma ScoreChecks(rule: Rule, idx: nat, domain: string, keyOrder: seq<string>)
    requires IsIterationOrder(keyOrder)
    ensures multiset(RuleErrors(rule, idx, domain, keyOrder))[ScoreNotInteger(domain, idx)] ==
      if rule.score.Some? && !IsInt(rule.score.value) then 1 else 0
    ensures rule.score.None? ==>
      multiset(RuleErrors(rule, idx, domain, keyOrder))[MissingKey(domain, idx, "score")] == 1
      && ScoreNotInteger(domain, idx) !in RuleErrors(rule, idx, domain, keyOrder)
    ensures rule.score.Some? && rule.score.value.Bool? ==> ScoreNotInteger(domain, idx) !in RuleErrors(rule, idx, domain, keyOrder)
  {
    MissingKeyErrorsCount(rule, idx, domain, keyOrder, ScoreNotInteger(domain, idx));
    MissingKeyReportedOnce(rule, idx, domain, keyOrder, "score");
  }

  /** `tags` present and not a list gives one error, `when` present and not
      a mapping gives one error; when absent they give none. */
  lemma TagsAndWhenChecks(rule: Rule, idx: nat, domain: string, keyOrder: seq<string>)
    requires IsIterationOrder(keyOrder)
    ensures multiset(RuleErrors(rule, idx, domain, keyOrder))[TagsNotList(domain, idx)] ==
      if rule.tags.Some? && !rule.tags.value.List? then 1 else 0
    ensures multiset(RuleErrors(rule, idx, domain, keyOrder))[WhenNotDictionary(domain, idx)] ==
      if rule.when.Some? && !rule.when.value.Conditions? then 1 else 0
  {
    MissingKeyErrorsCount(rule, idx, domain, keyOrder, TagsNotList(domain, idx));
    MissingKeyErrorsCount(rule, idx, domain, keyOrder, WhenNotDictionary(domain, idx));
  }

  /** A rule yields no error exactly when it is well formed. */
  lemma RuleValidIff(rule: Rule, idx: nat, domain: string, keyOrder: seq<string>)
    requires IsIterationOrder(keyOrder)
    ensures RuleErrors(rule, idx, domain, keyOrder) == [] <==> WellFormed(rule)
  {
    var missing := MissingKeyErrors(rule, idx, domain, keyOrder);
    if WellFormed(rule) {
      forall e ensures multiset(missing)[e] == 0 {
        MissingKeyErrorsCount(rule, idx, domain, keyOrder, e);
      }
      assert multiset(missing) == multiset{};
    } else if exists key :: key in RequiredKeys && !HasKey(rule, key) {
      var key :| key in RequiredKeys && !HasKey(rule, key);
      MissingKeyReportedOnce(rule, idx, domain, keyOrder, key);
    }
  }

  /** A key that is present is never visited as missing, however often it
      appears in the visiting order. */
  lemma {:induction false} MissingKeyErrorsLength(rule: Rule, idx: nat, domain: string, keys: seq<string>, present: string)
    requires HasKey(rule, present)
    ensures MissingKey(domain, idx, present) !in MissingKeyErrors(rule, idx, domain, keys)
    ensures |MissingKeyErrors(rule, idx, domain, keys)| + multiset(keys)[present] <= |keys|
    decreases |keys|
  {
    MissingKeyErrorsCount(rule, idx, domain, keys, MissingKey(domain, idx, present));
    if keys != [] {
      var init := keys[..|keys| - 1];
      assert keys == init + [keys[|keys| - 1]];
      MissingKeyErrorsLength(rule, idx, domain, init, present);
    }
  }

  /** A rule yields at most five errors: the score is either missing or
      checked for its type, not both. */
  lemma AtMostFiveErrors(rule: Rule, idx: nat, domain: string, keyOrder: seq<string>)
    requires IsIterationOrder(keyOrder)
    ensures |RuleErrors(rule, idx, domain, keyOrder)| <= 5
  {
    assert |keyOrder| == 3 by {
      assert |multiset(keyOrder)| == |keyOrder|;
      assert |RequiredKeys| == 3;
    }
    if HasKey(rule, "score") {
      assert multiset(keyOrder)["score"] == 1;
      MissingKeyErrorsLength(rule, idx, domain, keyOrder, "score");
    } else {
      MissingKeyErrorsAtMost(rule, idx, domain, keyOrder);
    }
  }

  lemma {:induction false} MissingKeyErrorsAtMost(rule: Rule, idx: nat, domain: string, keys: seq<string>)
    ensures |MissingKeyErrors(rule, idx, domain, keys)| <= |keys|
    decreases |keys|
  {
    if keys != [] {
      MissingKeyErrorsAtMost(rule, idx, domain, keys[..|keys| - 1]);
    }
  }

  /** Five errors do occur: a rule with neither `recommend` nor `reason`,
      and with `score`, `tags` and `when` each of the wrong type. */
  lemma FiveErrorsReachable(rule: Rule, idx: nat, domain: string, keyOrder: seq<string>)
    requires IsIterationOrder(keyOrder)
    requires rule.recommend.None? && rule.reason.None?
    requires rule.score.Some? && !IsInt(rule.score.value)
    requires rule.tags.Some? && !rule.tags.value.List?
    requires rule.when.Some? && !rule.when.value.Conditions?
    ensures |RuleErrors(rule, idx, domain, keyOrder)| == 5
  {
    var missing := MissingKeyErrors(rule, idx, domain, keyOrder);
    assert |missing| <= 2 by {
      assert |keyOrder| == 3 by {
        assert |multiset(keyOrder)| == |keyOrder|;
        assert |RequiredKeys| == 3;
      }
      assert multiset(keyOrder)["score"] == 1;
      MissingKeyErrorsLength(rule, idx, domain, keyOrder, "score");
    }
    assert |missing| >= 2 by {
      var first := MissingKey(domain, idx, "recommend");
      var second := MissingKey(domain, idx, "reason");
      MissingKeyErrorsCount(rule, idx, domain, keyOrder, first);
      MissingKeyErrorsCount(rule, idx, domain, keyOrder, second);
      assert multiset(keyOrder)["recommend"] == 1 && multiset(keyOrder)["reason"] == 1;
      assert first in missing && second in missing;
      var i :| 0 <= i < |missing| && missing[i] == first;
      var j :| 0 <= j < |missing| && missing[j] == second;
      assert i != j;
    }
    assert RuleErrors(rule, idx, domain, keyOrder) ==
      missing + [ScoreNotInteger(domain, idx)] + [TagsNotList(domain, idx)] + [WhenNotDictionary(domain, idx)];
  }

  /** The hint printed with a missing key: `1` for `score`, `?` for the
      keys without a default. */
  lemma RequiredKeyHints()
    ensures Hint("score") == "1"
    ensures Hint("recommend") == "?" && Hint("reason") == "?"
  {
    assert NatToString(1) == "1";
  }

  /** The suggested defaults are the ones the evaluator fills in. */
  lemma DefaultsAgreeWithEvaluator()
    ensures DefaultValues["score"] == Engine.DefaultScore
    ensures DefaultValues["tags"] == Engine.DefaultTags
    ensures DefaultValues["tradeoffs"] == Engine.DefaultTradeoffs
    ensures DefaultValues["source"] == Engine.DefaultSource
  {
  }

  // ---------------------------------------------------------------- the rule set: properties

  /** Within a section the errors of rule `n` come right after those of the
      rules before it, and before those of the rules after it. */
  lemma {:induction false} RulesErrorsInRuleOrder(domain: string, rules: seq<Rule>, n: nat, keyOrder: seq<string>)
    requires n <= |rules|
    ensures |RulesErrors(domain, rules[..n], keyOrder)| <= |RulesErrors(domain, rules, keyOrder)|
    ensures RulesErrors(domain, rules, keyOrder)[..|RulesErrors(domain, rules[..n], keyOrder)|] == RulesErrors(domain, rules[..n], keyOrder)
    decreases |rules| - n
  {
    if n == |rules| {
      assert rules[..n] == rules;
    } else {
      RulesErrorsInRuleOrder(domain, rules, n + 1, keyOrder);
      RulesErrorsStep(domain, rules, n, keyOrder);
      var all := RulesErrors(domain, rules, keyOrder);
      var upto := RulesErrors(domain, rules[..n], keyOrder);
      var next := RulesErrors(domain, rules[..n + 1], keyOrder);
      assert all[..|next|] == next;
      assert next[..|upto|] == upto;
      assert all[..|upto|] == all[..|next|][..|upto|];
    }
  }

  /** Sections contribute their errors in section order and none stops the
      run: the errors of a concatenation are the concatenation of the errors. */
  lemma {:induction false} RuleSetErrorsAppend(a: RuleSet, b: RuleSet, keyOrder: seq<string>)
    ensures RuleSetErrors(a + b, keyOrder) == RuleSetErrors(a, keyOrder) + RuleSetErrors(b, keyOrder)
    decreases |b|
  {
    if b == [] {
      assert a + b == a;
    } else {
      var init := b[..|b| - 1];
      var last := b[|b| - 1];
      assert (a + b)[..|a + b| - 1] == a + init;
      assert (a + b)[|a + b| - 1] == last;
      RuleSetErrorsAppend(a, init, keyOrder);
      ConcatAssociates(RuleSetErrors(a, keyOrder), RuleSetErrors(init, keyOrder), SectionErrors(last.0, last.1, keyOrder));
    }
  }

  lemma RuleSetErrorsOne(section: (string, seq<Rule>), keyOrder: seq<string>)
    ensures RuleSetErrors([section], keyOrder) == SectionErrors(section.0, section.1, keyOrder)
  {
    assert [section][..0] == [];
  }

  /** The errors of section `i` sit between those of the sections before and
      after it; an unknown section contributes exactly one error naming it,
      and none of its rules is checked. */
  lemma SectionErrorsInPlace(rs: RuleSet, i: nat, keyOrder: seq<string>)
    requires i < |rs|
    ensures RuleSetErrors(rs, keyOrder) ==
      RuleSetErrors(rs[..i], keyOrder) + SectionErrors(rs[i].0, rs[i].1, keyOrder) + RuleSetErrors(rs[i + 1..], keyOrder)
    ensures rs[i].0 !in ValidTopSections ==> SectionErrors(rs[i].0, rs[i].1, keyOrder) == [UnknownSection(rs[i].0)]
  {
    assert rs == rs[..i] + [rs[i]] + rs[i + 1..];
    RuleSetErrorsAppend(rs[..i] + [rs[i]], rs[i + 1..], keyOrder);
    RuleSetErrorsAppend(rs[..i], [rs[i]], keyOrder);
    RuleSetErrorsOne(rs[i], keyOrder);
  }

  /** A rule set holding only "bogus_section" gets one error naming it,
      whatever its rules. */
  lemma BogusSectionExample(rules: seq<Rule>, keyOrder: seq<string>)
    ensures RuleSetErrors([("bogus_section", rules)], keyOrder) == [UnknownSection("bogus_section")]
  {
    RuleSetErrorsOne(("bogus_section", rules), keyOrder);
    assert "bogus_section" !in ValidTopSections;
  }

  /** A known section has no error exactly when none of its rules has one. */
  lemma {:induction false} RulesErrorsEmptyIff(domain: string, rules: seq<Rule>, keyOrder: seq<string>)
    ensures RulesErrors(domain, rules, keyOrder) == [] <==>
      forall k :: 0 <= k < |rules| ==> RuleErrors(rules[k], k, domain, keyOrder) == []
    decreases |rules|
  {
    if rules != [] {
      var n := |rules| - 1;
      var init := rules[..n];
      assert forall k :: 0 <= k < |init| ==> init[k] == rules[k];
      RulesErrorsEmptyIff(domain, init, keyOrder);
      var a := RulesErrors(domain, init, keyOrder);
      var b := RuleErrors(rules[n], n, domain, keyOrder);
      assert RulesErrors(domain, rules, keyOrder) == a + b;
      assert a + b == [] <==> a == [] && b == [] by {
        assert |a + b| == |a| + |b|;
      }
    }
  }

  /** A known section yields no error exactly when each of its rules is well
      formed. */
  lemma RulesValidIff(domain: string, rules: seq<Rule>, keyOrder: seq<string>)
    requires IsIterationOrder(keyOrder)
    ensures RulesErrors(domain, rules, keyOrder) == [] <==> forall k :: 0 <= k < |rules| ==> WellFormed(rules[k])
  {
    RulesErrorsEmptyIff(domain, rules, keyOrder);
    forall k | 0 <= k < |rules| ensures RuleErrors(rules[k], k, domain, keyOrder) == [] <==> WellFormed(rules[k]) {
      RuleValidIff(rules[k], k, domain, keyOrder);
    }
  }

  /** A section passes when its name is known and each of its rules is well formed. */
  predicate SectionValid(section: (string, seq<Rule>)) {
    section.0 in ValidTopSections && forall k :: 0 <= k < |section.1| ==> WellFormed(section.1[k])
  }

  lemma SectionValidIff(section: (string, seq<Rule>), keyOrder: seq<string>)
    requires IsIterationOrder(keyOrder)
    ensures SectionErrors(section.0, section.1, keyOrder) == [] <==> SectionValid(section)
  {
    RulesValidIff(section.0, section.1, keyOrder);
  }

  /** No error at all exactly when no section has one. */
  lemma {:induction false} RuleSetErrorsEmptyIff(rs: RuleSet, keyOrder: seq<string>)
    ensures RuleSetErrors(rs, keyOrder) == [] <==>
      forall i :: 0 <= i < |rs| ==> SectionErrors(rs[i].0, rs[i].1, keyOrder) == []
    decreases |rs|
  {
    if rs != [] {
      var n := |rs| - 1;
      var init := rs[..n];
      assert forall i :: 0 <= i < |init| ==> init[i] == rs[i];
      RuleSetErrorsEmptyIff(init, keyOrder);
      var a := RuleSetErrors(init, keyOrder);
      var b := SectionErrors(rs[n].0, rs[n].1, keyOrder);
      assert RuleSetErrors(rs, keyOrder) == a + b;
      assert a + b == [] <==> a == [] && b == [] by {
        assert |a + b| == |a| + |b|;
      }
    }
  }

  /** The rule set is valid exactly when every section is known and every
      rule in it is well formed. */
  lemma RuleSetValidIff(rs: RuleSet, keyOrder: seq<string>)
    requires IsIterationOrder(keyOrder)
    ensures RuleSetErrors(rs, keyOrder) == [] <==> forall i :: 0 <= i < |rs| ==> SectionValid(rs[i])
  {
    RuleSetErrorsEmptyIff(rs, keyOrder);
    forall i | 0 <= i < |rs| ensures SectionErrors(rs[i].0, rs[i].1, keyOrder) == [] <==> SectionValid(rs[i]) {
      SectionValidIff(rs[i], keyOrder);
    }
  }
}
