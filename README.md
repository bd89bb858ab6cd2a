# Sidebar validator: a Dafny model of the rule compiler and evaluator

The sidebar extension shows whether an entry is valid. It reads the
validation declarations of each field of the entry's content type, and
compiles each field into an ordered list of predicates:

- string fields (`Symbol`, `Text`) get `unique`, `size` and
  `prohibitRegexp` predicates;
- number fields (`Integer`, `Float`) get `range` predicates;
- a required field also gets the shared `required` predicate, appended
  last.

On every pass it runs each field's predicates on the field's current value,
ANDs the results per field and then across the content type, and stores
that verdict in the component's `valid` flag.

The model has these modules:

- `Wrappers`: the `Option` and `Result` datatypes.
- `Schema`: field definitions, declarations, values, the entry, and the
  type-tag tests.
- `Predicates`: each compiled closure as a `Rule` value, and `Apply`,
  which runs one rule on a value. JavaScript's behaviour is spelled out:
  - a bound of 0 or an absent bound is no bound;
  - a size predicate reads the length only when it has a non-zero bound,
    and the length of null throws;
  - a pattern tested on null is tested on `"null"`;
  - null compared with a bound counts as 0.
- `Compiler`: the rule tables and the builder methods. Each builder is a
  loop whose `ensures` ties its result to a specification function (for
  example `RulesOf` or `RuleSetOf`), plus lemmas about what those
  functions contain.
- `Evaluator`: the per-field check and the overall verdict, where a throw
  aborts the whole pass. It also has lemmas relating the verdict to the
  individual fields.
- `Sidebar`: the component as a class with its `valid` field. It has the
  rule-set builder loop and the validation pass.
- `Properties`: the verdict of a string, number or other field stated
  directly in terms of its declarations, and worked scenarios.

The regular-expression engine is a parameter `matches(pattern, flags,
subject)`. The host entry is a parameter, mapping field ids to values. A
thrown exception is modelled as `Err`:

- `NullHasNoLength` when a size predicate with a non-zero bound meets null;
- `MissingEntryField(id)` when the entry has no such field.

The documented scenario says a required `title` with `size {min: 5, max: 10}`
holding null "fails required", giving an overall `false`. The code does
something else: the size predicate comes first and reads `null.length`, so
the pass throws and `valid` is left as it was. The model follows the code;
see `Properties.TitleNullScenario`.

## Model

| member | source | states |
|---|---|---|
| Predicates.Admits | src/index.js:35-43 | the size/range bound check holds exactly when every truthy bound admits the value (min <= x, x <= max); with no truthy bound it always holds |
| Predicates.Flags | src/index.js:49-52 | the flags passed to the engine are the declared flags when present, otherwise the empty string |
| Predicates.Apply | src/index.js:33-117 | running a compiled predicate throws exactly when a size predicate with a truthy bound meets null, and then the fault is NullHasNoLength; a size object with no truthy bound passes every value |
| Predicates.SizeOnNull | src/index.js:33-45 | on null, a size predicate throws exactly when it has a truthy bound; `{min: 0}` passes null and `{max: 3}` throws |
| Predicates.UniqueAlwaysPasses | src/index.js:57 | the unique predicate accepts every value |
| Predicates.RequiredFailsOnlyOnNull | src/index.js:110-113 | the required predicate fails exactly on null; "" and 0 pass |
| Predicates.ProhibitIsNegatedMatch | src/index.js:47-54 | prohibitRegexp passes exactly when the pattern, with its flags or "", does not match the string |
| Predicates.SizeBoundaries | src/index.js:33-45 | with 0 < min <= max, a string passes exactly when min <= length <= max; both boundary lengths pass and one step outside fails |
| Predicates.ZeroBoundIsAbsent | src/index.js:77-86 | a bound of 0 acts as an absent bound, so range {min: 0, max: 5} admits -3 |
| Predicates.RangeOnNullComparesZero | src/index.js:75-87 | the range predicate on null compares the bounds with 0, so min 18 rejects an empty number field |
| Compiler.BuildFromTable | src/index.js:62-73 | the nested loop over declarations and table keys yields TableRules: one rule per owned key, in declaration order and then key order |
| Compiler.BuildStringValidations | src/index.js:62-73 | the string builder yields the rules of the string table (unique, size, prohibitRegexp) for every declaration |
| Compiler.BuildNumberValidations | src/index.js:93-105 | the number builder yields the rules of the number table (range) for every declaration |
| Compiler.BuildSharedValidations | src/index.js:107-117 | the shared builder yields the required rule exactly when the field is required |
| Compiler.BuildValidations | src/index.js:119-130 | a field's rules are its type-specific rules followed by its shared rules (RulesOf) |
| Compiler.TableRulesAppend | src/index.js:65-71 | compiling a concatenation of declaration lists gives the concatenation of their rules |
| Compiler.StringDeclRules | src/index.js:56-60 | within one declaration the string rules come in the order unique, size, prohibitRegexp, each present exactly when its key is |
| Compiler.NumberDeclRules | src/index.js:89-91 | a declaration yields a range rule exactly when it has a range key |
| Compiler.DeclRulesMember | src/index.js:66-70 | a rule is built from a declaration exactly when the declaration owns a table key whose builder yields it |
| Compiler.TableRulesMember | src/index.js:65-71 | a rule is in the compiled list exactly when some declaration owns a key whose builder yields it: nothing is invented or dropped |
| Compiler.TypeRulesKinds | src/index.js:122-126 | type-specific rules never include the required rule; a string field's are unique/size/prohibit rules and a number field's are range rules |
| Compiler.DispatchByType | src/index.js:119-130 | dispatch on the type tag; a field of any other type gets only the shared rules |
| Compiler.StringRulesOf | src/index.js:119-130 | a string field's rules are exactly the unique, size and prohibit rules its declarations ask for, plus required when it is required |
| Compiler.NumberRulesOf | src/index.js:119-130 | a number field's rules are exactly the range rules its declarations ask for, plus required when it is required |
| Compiler.RequiredAddsOneRule | src/index.js:127 | the required rule is present exactly when the field is required, and it is the single last rule |
| Compiler.RulesOfFit | src/index.js:119-130 | every compiled rule fits any value the field's type holds |
| Compiler.RuleSetKeys | src/index.js:132-140 | the rule set has an entry for every field id and no other |
| Compiler.RuleSetLast | src/index.js:134-137 | the rules stored for an id are those of the last field carrying it, and those of the field itself when no later field repeats the id |
| Compiler.RuleSetOfDistinct | src/index.js:132-140 | with distinct ids, each id maps to exactly its own field's rules |
| Evaluator.Collect | src/index.js:146 | mapping a throwing call over a list succeeds exactly when every call does, keeping the results in order; otherwise the first throw, in list order, is reported |
| Evaluator.Results | src/index.js:146 | the mapped results are, element by element, the predicates applied to the value |
| Evaluator.Check | src/index.js:145-146 | an empty list passes; otherwise the verdict is true exactly when every predicate returns true, and it throws exactly when some predicate throws (the fault is NullHasNoLength) |
| Evaluator.ValidateField | src/index.js:142-147 | a missing field throws MissingEntryField; otherwise the field passes exactly when every rule passes and throws exactly when some rule throws |
| Evaluator.FieldResults | src/index.js:152-155 | the per-field verdicts are, element by element, each field checked against the rules stored under its id |
| Evaluator.Evaluate | src/index.js:149-157 | the overall verdict is true exactly when every field's verdict is true; it throws exactly when some field throws, and reports the first such field |
| Evaluator.CompiledIsEvaluable | src/index.js:150-154 | the compiled rule set covers every field and fits every value that fits its field |
| Evaluator.VerdictIsConjunction | src/index.js:149-157 | with distinct ids, the overall verdict is true exactly when each field passes its own compiled rules |
| Evaluator.FirstFaultAborts | src/index.js:152-155 | when field k is the first to throw, the pass throws that field's fault |
| Evaluator.NoFaultVerdict | src/index.js:152-155 | when no field throws, the overall verdict is the AND of the per-field verdicts |
| Evaluator.FitsAfterUpdate | src/index.js:143 | with distinct ids, replacing one field's value by a value of its type keeps every value fitting its field |
| Evaluator.OneFailingField | src/index.js:152-155 | when one field fails and all others pass, the verdict is false |
| Evaluator.OneInvalidFieldFails | src/index.js:149-157 | making one field of a valid entry invalid, with the others unchanged, turns the verdict from true to false |
| Sidebar.SidebarExtension.constructor | src/index.js:10-15 | a new sidebar shows valid |
| Sidebar.SidebarExtension.BuildAllValidations | src/index.js:132-140 | the loop over the content type's fields builds RuleSetOf, keyed by exactly the field ids |
| Sidebar.SidebarExtension.ValidateFields | src/index.js:152-155 | the loop over the fields, validating each against its stored rules, yields Evaluate: the AND of the verdicts, or the fault of the first field that throws |
| Sidebar.SidebarExtension.ValidateAll | src/index.js:149-157 | a pass yields Evaluate on the compiled rule set; `valid` becomes the verdict, and stays as it was when the pass throws |
| Properties.CheckWithoutFault | src/index.js:145-146 | when no rule can throw on the value, the check reports whether all rules pass |
| Properties.StringFieldVerdict | src/index.js:119-147 | a string field holding a string passes exactly when every size bound admits its length and no prohibited pattern matches it |
| Properties.StringFieldNull | src/index.js:119-147 | a string field holding null throws if any declaration has a size object with a truthy bound; otherwise it passes exactly when it is not required and no prohibited pattern matches "null" |
| Properties.NumberFieldVerdict | src/index.js:119-147 | a number field holding a number passes exactly when every range bound admits it |
| Properties.NumberFieldNull | src/index.js:119-147 | a number field holding null passes exactly when it is not required and every range bound admits 0 |
| Properties.OtherFieldVerdict | src/index.js:119-130 | a field of any other type fails only when it is required and null |
| Properties.TitleScenario | src/index.js:33-45 | required Text title with size 5..10: "hi" fails and "hello" passes |
| Properties.TitleNullScenario | src/index.js:33-45 | the same title holding null throws NullHasNoLength instead of failing the required rule |
| Properties.ZeroSizeNullScenario | src/index.js:33-45 | a required Text field whose size is `{min: 0}`, holding null, fails the required rule without throwing |
| Properties.AgeScenario | src/index.js:75-87 | Integer age with min 18: 17 fails, 18 and 1000 pass |
| Properties.AgeNullScenario | src/index.js:75-87 | the same optional age holding null fails, because null is compared as 0 |
| Properties.ContentTypeScenario | src/index.js:149-157 | title "hello" with age 17 makes the whole entry invalid |

## Left out

- The React rendering (the note and the button), the SDK window auto-resizer, `componentDidMount`, `init` and the extension bootstrap: UI and host plumbing, not validation logic.
- `bindChanges` and the `onValueChanged` subscriptions: they only decide when a pass runs. Each pass is modelled as one call to `ValidateAll`.
- `setState` is modelled as a synchronous assignment to `valid`; React's batching and re-rendering are not modelled.
- Regular-expression semantics, and the throw of `new RegExp` on a malformed pattern or flags: the engine is the `matches` parameter.
- Numbers are mathematical integers. Floating-point values of `Float` fields are not modelled.
- String lengths count `char`s, not UTF-16 code units.
- Values whose JavaScript type does not match the field type are excluded by preconditions (`ValueFits`, `Fits`). So are `undefined` values and JavaScript's coercions of them.
- Declarations whose `size`, `range` or `prohibitRegexp` key is present but null or malformed are not modelled; a key is either absent or well formed. Declaration keys other than the four recognised ones are not represented, since the compiler ignores them.
- The shape of the host objects (`sdk.contentType.fields` as an object whose keys are enumerated) is modelled as a sequence in enumeration order.
