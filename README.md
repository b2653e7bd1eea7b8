# Questionnaire rule engine, modelled in Dafny

The system turns a questionnaire's answers into recommendations. It does this with a rule set in YAML. Each top-level section holds an ordered list of rules. A rule has:
- a `when` mapping of field names to condition expressions;
- a `recommend` template;
- optional `reason`, `score`, `tags`, `source` and `tradeoffs`.

This project models the two parts that do the real work:

- **The rule evaluator** (`RecommendationEngine` in `recommendation_engine.py`):
  - The condition matcher `_match` reads operator prefixes `>=`, `!=`, `<`, `in:` and `notin:`, in that order. Failing those, it uses list membership or string equality.
  - `evaluate` runs every rule of every section against the answers. Each firing rule contributes a record: its rendered template plus the defaults for missing fields. A section with no firing rule is left out. Section names are turned into titles (`power_cooling` becomes `Power Cooling`).
- **The rule-set validator** (`validate_rules.py`):
  - `validate_rule` checks one rule for the required keys (`recommend`, `reason`, `score`). It also checks the types of `score`, `tags` and `when`.
  - The loop of `validate_file` rejects section names outside the known set and collects every error.

## Layout

| file | module | contents |
|---|---|---|
| `base.dfy` | `Base` | `Option`, `Result` |
| `text.dfy` | `Text` | the string built-ins that are used: `startswith`, `split`, `str(int)`, the decimal part of `float(str)`, `replace`, `title`; and `Join`, which the list case of `repr` and the split round-trip lemmas use |
| `values.dfy` | `Values` | YAML and Python values (`None`, `bool`, `int`, `str`, `list`), `str()`/`repr()`, Python `==` (where `True == 1`), list membership |
| `template.dfy` | `Template` | `str.format(**fields)` for `{name}` placeholders and `{{`/`}}` escapes, as a lexer plus a renderer |
| `matcher.dfy` | `Matcher` | `_match`: condition expressions parsed into a `Condition`, then checked |
| `rules.dfy` | `Rules` | the parsed rule set (`Rule`, `When`, `RuleSet`, `Answers`) |
| `engine.dfy` | `Engine` | `evaluate`: the `RecommendationEngine` class, whose `Evaluate` method is proved equal to the `Evaluation` function, plus the lemmas about `Evaluation` |
| `validator.dfy` | `Validator` | `REQUIRED_KEYS`, `VALID_TOP_SECTIONS`, `DEFAULT_VALUES`, `validate_rule` and the `validate_file` loop, as methods proved against specification functions, plus the lemmas about those functions |

Modelling choices:
- **Absent values.** An absent key of a rule is `None` in the `Option` fields of `Rule`. An absent answer is the value `Null`, as `inputs.get(field)` returns `None`.
- **Errors `evaluate` raises** are returned as an `EvalError`:
  - a `when` that is not a mapping;
  - a missing `recommend`, or one that is not a string;
  - a template that is malformed or names a missing answer.

  The `Result` either holds the complete result dict or the first error. An error never comes with a partial result.
- **Dicts** keep insertion order. They are sequences of pairs. Assignment (`Engine.Put`) replaces an existing key in place and otherwise appends.
- **`REQUIRED_KEYS` is a Python `set`.** Its iteration order is fixed for a run but not known in advance. The validator takes the order as a parameter `keyOrder`, which must be a permutation of the three keys. Every property about missing-key errors holds for each such order. `Validator.RuleErrorsOrderIndependent` shows that the errors themselves, as a multiset, do not depend on the order.
- **Validator errors** are the datatype `ValidationError`. `Validator.Message` renders each one as the exact line the program builds, with the 1-based rule number and the hint from `DEFAULT_VALUES`, or `?` when the key has no default.
- **`evaluate` changes nothing.** `Engine.RecommendationEngine.Evaluate` has no `modifies` clause, so it can change neither `rules` nor the answers. Both validator methods are likewise free of side effects.

### Behaviour of the code worth knowing
- **Evaluation mode.** There is no first-match mode: every firing rule of a section contributes a record.
- **Defaults.** For `score`, `tags`, `tradeoffs` and `source`, the validator's suggested defaults are the values `evaluate` fills in (`Validator.DefaultsAgreeWithEvaluator`). `DEFAULT_VALUES` has no `reason` entry, so the hint for a missing `reason` is `?`, while `evaluate` fills in "Matched conditions".
- **Exit status.** `validate_file` only prints its report and sets no exit status, so none is modelled.
- **Unknown sections.** `evaluate` processes every section, whatever its name; only the validator rejects names outside `VALID_TOP_SECTIONS`.

### Constants
- `Validator.RequiredKeys` is `REQUIRED_KEYS` (`validate_rules.py:6`): `recommend`, `reason`, `score`.
- `Validator.ValidTopSections` is `VALID_TOP_SECTIONS` (`validate_rules.py:7`): the six known section names.
- `Validator.DefaultValues` is `DEFAULT_VALUES` (`validate_rules.py:8-13`): `score: 1`, `tags: []`, `tradeoffs: ""`, `source: ""`.
- `Engine.DefaultReason`, `DefaultScore`, `DefaultTags`, `DefaultSource` and `DefaultTradeoffs` are the `rule.get` defaults of `recommendation_engine.py:35-39`.

## Model

| member | source | states |
|---|---|---|
| Text.Split | recommendation_engine.py:19 | `split(",")` gives at least one piece and no piece contains the separator |
| Text.JoinSplit | recommendation_engine.py:19 | joining the pieces of a split with the separator gives back the string: no character is dropped or trimmed |
| Text.SplitJoin | recommendation_engine.py:18-21 | splitting the comma-join of comma-free items gives back exactly those items |
| Text.NatToStringValue | recommendation_engine.py:14 | the decimal digits `str(n)` prints denote `n` |
| Text.ParseIntToString | recommendation_engine.py:10-17 | `float(str(i))` is `i` for every integer |
| Text.IntToString | recommendation_engine.py:14 | `str(i)` of an integer: a `-` for negatives, then the decimal digits without leading zeros |
| Text.ParseNumber | recommendation_engine.py:11 | `float(s)` on an optional sign and a decimal with at most one point; `None` where Python raises; it succeeds only on strings starting with a digit, a sign or `.` |
| Text.StartsWith | recommendation_engine.py:10-20 | `s.startswith(prefix)`: the prefix is no longer than `s` and agrees with it character by character |
| Text.ReplaceChar | recommendation_engine.py:42 | `s.replace(from, to)` for single characters: every `from` becomes `to`, everything else stays, and the length is kept |
| Text.Title | recommendation_engine.py:42 | `str.title()`: each character is lower-cased after a cased character and upper-cased otherwise |
| Text.TitleAt | recommendation_engine.py:42 | `title()` keeps the length and upper-cases a character unless the one before it is a letter, in which case it lower-cases it |
| Text.TitleIdempotent | recommendation_engine.py:42 | title-casing a title leaves it unchanged |
| Text.TitleFromAppend | recommendation_engine.py:42 | title-casing a concatenation title-cases the second part as if it followed the last character of the first |
| Text.TitleTwoWords | recommendation_engine.py:42 | two lower-case words separated by a space are title-cased by capitalising the first letter of each |
| Values.Repr | recommendation_engine.py:24 | `repr(v)`: `None`, `True`/`False`, the decimal form of an int, a quoted string, and a list as the reprs of its elements between brackets |
| Values.ToString | recommendation_engine.py:14 | `str(v)`: a string stands for itself, any other value for its `repr` |
| Values.PyEq | recommendation_engine.py:23 | Python `==`: `None` only equals `None`, bools and ints compare as integers (`True == 1`), strings by content, lists element by element |
| Values.Contains | recommendation_engine.py:23 | `x in items` on a list: some element is Python-equal to `x` |
| Values.PyEqReflexive | recommendation_engine.py:23 | Python `==` holds between a value and itself, so `in` on a list finds every element |
| Values.ContainsMember | recommendation_engine.py:23 | an element of a list is found by Python list membership |
| Template.Lex | recommendation_engine.py:34 | reads a template into text characters and `{name}` fields, with `{{`/`}}` as literal braces; scanning stops at the first malformed or unsupported field, which it reports |
| Template.Format | recommendation_engine.py:34 | `template.format(**inputs)`: the lexed tokens rendered against the answers; a missing name before the first syntax error is reported first, as Python does |
| Template.FieldToken | recommendation_engine.py:34 | a field is accepted as a keyword lookup exactly when its text is a bare name: not empty, not all digits, no `.`, `[`, `!`, `:` or braces |
| Template.Render | recommendation_engine.py:34 | rendering succeeds exactly when every placeholder names a given field |
| Template.FormatOkIff | recommendation_engine.py:34 | `format` succeeds exactly when the template is well formed and every placeholder names a given field |
| Template.LexUnlex | recommendation_engine.py:34 | reading a template written from well-named tokens, with braces escaped, gives back those tokens and no error |
| Template.FormatPlainText | recommendation_engine.py:34 | a template without braces formats to itself, whatever the answers |
| Template.RenderFrame | recommendation_engine.py:34 | the rendered text depends only on the answers that the placeholders name |
| Template.RenderAppend | recommendation_engine.py:34 | rendering a concatenation renders the parts in order, and the first failure wins |
| Template.FormatPlaceholder | recommendation_engine.py:34 | text followed by `{name}` formats to the text plus `str(answer)` when the answer is given, and fails with a missing-field error naming it when it is not |
| Matcher.Compare | recommendation_engine.py:10-17 | `float(answer) >= float(operand)` or `<`, and false when either conversion fails |
| Matcher.Holds | recommendation_engine.py:9-24 | the check of each condition kind: numeric for `>=`/`<`, string-form inequality for `!=`, untrimmed comma-list membership for `in:`/`notin:`, and for a literal Python list membership or string-form equality |
| Matcher.Matches | recommendation_engine.py:8-24 | `_match(answer, expr)`: the expression read as a condition, then checked against the answer |
| Matcher.ParseCondition | recommendation_engine.py:9-21 | a value that is not a string is always a literal, and a literal condition keeps the original expression |
| Matcher.AsNumber | recommendation_engine.py:10-17 | `float()` of `None` or of a list fails |
| Matcher.FirstCharDispatch | recommendation_engine.py:9-21 | the first character decides which prefix test can succeed: `<` always gives "less than", `>`, `!`, `i` and `n` give their operator only with the full prefix, anything else is a literal |
| Matcher.NumericFailsClosed | recommendation_engine.py:10-17 | `>=N` and `<N` are false, never an error, when the answer or the operand is not a number |
| Matcher.NotEqualMatch | recommendation_engine.py:13-14 | `!=S` matches exactly the answers whose string form is not `S` |
| Matcher.LessOrEqualNeverMatches | recommendation_engine.py:15-17 | `<=N` is read as `<` with operand `=N` and matches nothing |
| Matcher.GreaterThanIsLiteral | recommendation_engine.py:9-24 | `>N` without `=` is no operator: it matches a non-list answer exactly when that answer's string form is the expression |
| Matcher.NotInIsNotIn | recommendation_engine.py:18-21 | `in:L` is read as membership in the comma pieces of `L`, and `notin:L` as their complement |
| Matcher.InNotInComplement | recommendation_engine.py:18-21 | for the same answer and list, `in:` and `notin:` give opposite results |
| Matcher.InListMembership | recommendation_engine.py:18-19 | `in:` followed by comma-joined, comma-free items matches exactly when the answer's string form is one of the items |
| Matcher.InDoesNotTrim | recommendation_engine.py:19 | in `in:a, b` the second item is ` b`: `b` does not match, ` b` does |
| Matcher.LiteralMatch | recommendation_engine.py:22-24 | with no prefix, a list answer matches exactly when it contains the expression under Python equality; any other answer matches exactly when the two string forms are equal |
| Matcher.AbsentAnswerIsNone | recommendation_engine.py:24 | an absent answer reads as `None`: it matches the expression `"None"` and not the empty string |
| Matcher.ListMembershipUsesPythonEquality | recommendation_engine.py:22-24 | the answer `[1]` satisfies the condition `true`, because `True == 1`; the answer `1` does not, because `"1" != "True"` |
| Matcher.NumericComparisons | recommendation_engine.py:10-17 | against an integer operand `N`, `>=N` and `<N` compare the answer's numeric value with `N` |
| Matcher.IntegerComparisons | recommendation_engine.py:10-17 | on integer answers, `>=N` and `<N` are exactly the integer comparisons |
| Matcher.DigitStringComparisons | recommendation_engine.py:10-17 | on integers given as digit strings, `>=N` and `<N` are exactly the integer comparisons |
| Matcher.WorkloadExample | recommendation_engine.py:24 | answer `AI / ML` matches the condition `AI / ML`; answer `VDI` does not |
| Matcher.EndpointExample | recommendation_engine.py:10-12 | the answer 750 satisfies `>=500` |
| Matcher.NonNumericEndpointExample | recommendation_engine.py:10-12 | the answer `not-a-number` does not satisfy `>=500`, and raises no error |
| Engine.Lookup | recommendation_engine.py:32 | an answer that was not given is `None` |
| Engine.AllHold | recommendation_engine.py:32 | `all(...)`: every field-condition pair of a `when` mapping matches the answer read with `inputs.get` |
| Engine.Fires | recommendation_engine.py:31-32 | a rule without `when` fires; testing a rule fails exactly when its `when` is not a mapping |
| Engine.Recommend | recommendation_engine.py:33-40 | a record is produced exactly when `recommend` is a string that formats; it carries the formatted text and, for each optional field, the rule's value or the default ("Matched conditions", 1, [], "", "") |
| Engine.Step | recommendation_engine.py:31-40 | one rule: its error, no record when it does not fire, or its record when it does |
| Engine.SectionMatches | recommendation_engine.py:29-40 | the records of a section's rules in rule order, or the first error a rule raises |
| Engine.SectionTitle | recommendation_engine.py:42 | `section.replace("_", " ").title()` |
| Engine.Put | recommendation_engine.py:42 | `results[key] = v` on an insertion-ordered dict: an existing key keeps its place and gets the new value, a new key is appended |
| Engine.Evaluation | recommendation_engine.py:26-43 | the result dict over the sections in order, a section with records stored under its title, or the first error raised |
| Engine.RecommendationEngine.constructor | recommendation_engine.py:5-6 | the engine stores the rule set it is given |
| Engine.RecommendationEngine.Evaluate | recommendation_engine.py:26-43 | the nested loops return exactly `Evaluation` of the stored rules: the complete result dict, or the first error raised |
| Engine.SectionErrorSticks | recommendation_engine.py:30-40 | an error raised by a rule ends its section with that error, whatever the later rules are |
| Engine.EvaluationErrorSticks | recommendation_engine.py:28-43 | an error raised in a section ends the whole evaluation with that error |
| Engine.SectionMatchesAppend | recommendation_engine.py:29-40 | the records for two runs of rules are those of the first run followed by those of the second; the first error wins |
| Engine.SectionMatchesOne | recommendation_engine.py:30-40 | one rule contributes nothing when it does not fire and its one record when it does |
| Engine.SectionMatchesSplit | recommendation_engine.py:29-40 | rule `k`'s record comes after the records of the rules before it and before those of the rules after it |
| Engine.SectionMatchesOkIff | recommendation_engine.py:30-40 | a section raises no error exactly when none of its rules does |
| Engine.SectionMatchesNoneFire | recommendation_engine.py:29-41 | when no rule fires the section has no records |
| Engine.SectionMatchesAllFire | recommendation_engine.py:29-40 | when every rule fires, the section has one record per rule, in rule order |
| Engine.VacuousRuleFires | recommendation_engine.py:31-32 | a rule whose `when` is missing or empty fires on every answers map |
| Engine.PutSpec | recommendation_engine.py:42 | dict assignment: the key now holds the new value, every other entry stays, no key appears twice, and the key set grows by the key |
| Engine.EvaluationOkIff | recommendation_engine.py:26-43 | `evaluate` raises exactly when some section raises |
| Engine.RuleErrorAborts | recommendation_engine.py:31-34 | any rule that raises aborts the whole evaluation, with no partial result |
| Engine.MissingFieldAborts | recommendation_engine.py:34 | a firing rule whose template names an answer that was not given aborts the evaluation |
| Engine.EvaluationShape | recommendation_engine.py:41-42 | the result's keys are distinct and no key holds an empty list |
| Engine.EvaluationKeys | recommendation_engine.py:41-42 | a title is a key of the result exactly when some section with that title had a match |
| Engine.EvaluationLastWins | recommendation_engine.py:42 | the value under a key is the matches of the last section that has that title and matched |
| Engine.EvaluationEntry | recommendation_engine.py:41-42 | the last matching section under a title supplies that title's value |
| Engine.NothingMatchesEmpty | recommendation_engine.py:27-43 | when no section has a match the result is the empty dict |
| Engine.SectionTitleWords | recommendation_engine.py:42 | a title keeps the name's length; `_` becomes a space; a word's first character is upper-cased and a letter after a letter is lower-cased |
| Engine.PowerCoolingTitle | recommendation_engine.py:42 | `power_cooling` becomes `Power Cooling` |
| Engine.BothMatchingRulesKept | recommendation_engine.py:29-42 | a one-section rule set with two firing rules yields both records under the section's title, in rule order |
| Engine.PowerCoolingExample | recommendation_engine.py:29-42 | two firing rules in `power_cooling` yield both records, in order, under `Power Cooling` |
| Engine.GreetingRule | recommendation_engine.py:31-34 | a rule with an empty `when` and template text followed by `{name}` yields the text plus the answer, or fails with a missing-field error when the answer is absent |
| Validator.HasKey | validate_rules.py:18 | `key in rule` for the keys a rule can hold |
| Validator.IsInt | validate_rules.py:21 | `isinstance(v, int)`, which holds for bools and ints |
| Validator.Hint | validate_rules.py:19 | `DEFAULT_VALUES.get(key, "?")` as the f-string prints it |
| Validator.MissingKeyErrors | validate_rules.py:17-20 | one missing-key error per visited required key the rule lacks, in visiting order |
| Validator.ScoreErrors | validate_rules.py:21-22 | one error when `score` is present and not an int |
| Validator.TagsErrors | validate_rules.py:23-24 | one error when `tags` is present and not a list |
| Validator.WhenErrors | validate_rules.py:25-26 | one error when `when` is present and not a mapping |
| Validator.RuleErrors | validate_rules.py:15-27 | `validate_rule`: the missing-key errors, then the score, tags and `when` errors |
| Validator.RulesErrors | validate_rules.py:37-38 | the errors of a section's rules, rule by rule, each with its position |
| Validator.SectionErrors | validate_rules.py:34-38 | `Unknown section: name` alone for an unknown section, otherwise its rules' errors |
| Validator.RuleSetErrors | validate_rules.py:32-38 | the errors of all sections, in section order |
| Validator.Message | validate_rules.py:20-35 | the report line for each error, with the rule's 1-based number |
| Validator.MissingScoreMessage | validate_rules.py:19-20 | the first rule of a section without a score is reported as `Rule #1` with the suggestion `score: 1` |
| Validator.ValidateRule | validate_rules.py:15-27 | the loop over the required keys, then the three type checks, return exactly `RuleErrors` for the given key order |
| Validator.ValidateRuleSet | validate_rules.py:32-38 | the section loop, which skips the rules of an unknown section and extends the list with each rule's errors, returns exactly `RuleSetErrors` |
| Validator.MissingKeyErrorsCount | validate_rules.py:17-20 | each missing-key error is reported once per visit of a key the rule lacks, with the rule's section and position; there are no other errors |
| Validator.MissingKeyReportedOnce | validate_rules.py:6-20 | each required key the rule lacks gives exactly one missing-key error; a present or non-required key gives none |
| Validator.RuleErrorsOrderIndependent | validate_rules.py:17-20 | as a multiset, a rule's errors are the same for every iteration order of `REQUIRED_KEYS` |
| Validator.ScoreChecks | validate_rules.py:21-22 | a score that is present and not an int gives exactly one error; a missing score gives the missing-key error and no type error; a bool score passes |
| Validator.TagsAndWhenChecks | validate_rules.py:23-26 | `tags` present and not a list gives exactly one error, and `when` present and not a mapping gives exactly one; absent ones give none |
| Validator.RuleValidIff | validate_rules.py:15-27 | a rule has no errors exactly when it has every required key, an int-or-absent score, list-or-absent tags and mapping-or-absent `when` |
| Validator.MissingKeyErrorsLength | validate_rules.py:17-20 | a key the rule has is never reported, however often it is visited: no error names it, and each visit of it adds no error, so there are at most as many errors as visits of the other keys |
| Validator.MissingKeyErrorsAtMost | validate_rules.py:17-20 | at most one missing-key error per key visited |
| Validator.AtMostFiveErrors | validate_rules.py:15-27 | any rule yields at most five errors |
| Validator.FiveErrorsReachable | validate_rules.py:15-27 | a rule with neither `recommend` nor `reason`, a non-int `score`, non-list `tags` and a non-mapping `when` yields exactly five errors, whatever the key order |
| Validator.RequiredKeyHints | validate_rules.py:8-20 | the suggested fix is `1` for `score` and `?` for `recommend` and `reason` |
| Validator.DefaultsAgreeWithEvaluator | validate_rules.py:8-13 | the suggested defaults for `score`, `tags`, `tradeoffs` and `source` are the values the evaluator fills in |
| Validator.RulesErrorsInRuleOrder | validate_rules.py:37-38 | the errors of the first `n` rules are a prefix of the section's errors, so rule `i`'s errors come before rule `i+1`'s |
| Validator.RuleSetErrorsAppend | validate_rules.py:33-38 | the errors of two runs of sections are those of the first run followed by those of the second: sections are reported in order and none stops the run |
| Validator.SectionErrorsInPlace | validate_rules.py:33-38 | section `i`'s errors sit between those of the sections before and after it; an unknown section contributes exactly `Unknown section: name`, and none of its rules is checked |
| Validator.BogusSectionExample | validate_rules.py:34-36 | a rule set holding only `bogus_section` yields exactly one error naming it, whatever its rules |
| Validator.RulesErrorsEmptyIff | validate_rules.py:37-38 | a known section yields no errors exactly when none of its rules does |
| Validator.RulesValidIff | validate_rules.py:37-38 | a known section's rules yield no errors exactly when every rule is well formed |
| Validator.SectionValidIff | validate_rules.py:33-38 | a section yields no errors exactly when its name is known and its rules are well formed |
| Validator.RuleSetErrorsEmptyIff | validate_rules.py:32-38 | the rule set yields no errors exactly when no section yields any |
| Validator.RuleSetValidIff | validate_rules.py:32-38 | the rule set is valid exactly when every section name is known and every rule in it is well formed |

## Left out

- YAML loading and file reading (`validate_rules.py:31`), the printing of the report (`validate_rules.py:40-45`) and the command line (`validate_rules.py:47-50`). The loop works on an already-parsed rule set and returns the error list. The code sets no exit status.
- The Streamlit pages (`shi_field_configurator.py`, `rule_builder_ui.py`) and the report exports (`export_utils.py`). They are UI and calls into foreign libraries.
- Floating point. Numbers are exact integers and decimals (`real`), with no IEEE rounding. Floats as answer or rule values are not modelled, and neither are dicts, except a rule's `when`. Overflow is not modelled either: `float()` of an int above about 1.8e308 raises OverflowError, which the bare `except` turns into False, and a digit string that long reads as `inf`. `Matcher.Compare` compares such values exactly instead.
- Text.ParseNumber: accepts an optional sign, digits and at most one decimal point. Python's `float()` also accepts surrounding whitespace, exponents, underscores, `inf` and `nan`. Those strings read here as "not a number", so a `>=`/`<` comparison on them is false here.
- Values.Repr: quotes strings with `'` and does no escaping. It does not choose `"` for strings that contain `'`, as Python does.
- Text.Title: only ASCII letters have cases. Python also title-cases other Unicode letters.
- Template.Format: handles only `{name}` placeholders and `{{`/`}}` escapes. Positional fields, attribute and index access, conversions and format specs are reported as errors rather than evaluated.
- The order among a rule's missing-key errors depends on Python's set iteration order. The model takes that order as the `keyOrder` parameter and proves its properties for every order.
- A section whose value is not a list, or a rule that is not a mapping. The types of `RuleSet` and `Rule` rule them out.
- Non-string YAML keys. Section names and `when` field names are strings here. An int section name would make `section.replace` raise at `recommendation_engine.py:42` once that section matched. An int `when` key would be looked up with `inputs.get(1)`.
- Unicode digits. `Text.IsDigit` and `Template.FieldToken` know only the ASCII digits. Python's `float()` also accepts other Unicode decimal digits, and `str.format` treats a field made of them, such as `{٣}`, as positional.
- Two section names that title-case to the same key: only "last write wins" is specified (`Engine.EvaluationLastWins`).
