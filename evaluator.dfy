/**
 * The verdict evaluator: runs every compiled predicate of every field on the
 * field's current value and reduces the results with AND, first per field
 * and then across the content type. A predicate or a lookup that throws
 * aborts the whole pass.
 */
module Evaluator {
  import opened Wrappers
  import opened Schema
  import opened Predicates
  import opened Compiler

  /**
   * Mapping a possibly-throwing call over a list: the first throw, in list
   * order, aborts the map; otherwise every result is kept, in order.
   */
  function Collect<T, E>(rs: seq<Result<T, E>>): (r: Result<seq<T>, E>)
    ensures r.Ok? <==> forall i | 0 <= i < |rs| :: rs[i].Ok?
    ensures r.Ok? ==> |r.value| == |rs| && forall i | 0 <= i < |rs| :: rs[i] == Ok(r.value[i])
    ensures r.Err? ==> exists i | 0 <= i < |rs| :: rs[i] == Err(r.error) && forall j | 0 <= j < i :: rs[j].Ok?
  {
    if rs == [] then Ok([])
    else
      match rs[0]
      case Err(e) => Err(e)
      case Ok(b) =>
        match Collect(rs[1..])
        case Err(e) => Err(e)
        case Ok(bs) => Ok([b] + bs)
  }

  /** Every element of the list is true (vacuously so for the empty list). */
  predicate Every(bs: seq<bool>) {
    forall i | 0 <= i < |bs| :: bs[i]
  }

  /** The results of running each rule, in order, on one value (the `map` over the rule list). */
  function Results(rules: seq<Rule>, v: Value, matches: Matcher): (rs: seq<Result<bool, Fault>>)
    requires RulesFit(rules, v)
    ensures |rs| == |rules|
    ensures forall i | 0 <= i < |rules| :: rs[i] == Apply(rules[i], v, matches)
  {
    if rules == [] then []
    else [Apply(rules[0], v, matches)] + Results(rules[1..], v, matches)
  }

  /**
   * The verdict of a rule list on a value: true for an empty list, otherwise
   * the AND of all results. Every rule runs, so a throwing rule aborts even
   * when an earlier one has already failed.
   */
  function Check(rules: seq<Rule>, v: Value, matches: Matcher): (r: Result<bool, Fault>)
    requires RulesFit(rules, v)
    ensures rules == [] ==> r == Ok(true)
    ensures r == Ok(true) <==> forall i | 0 <= i < |rules| :: Apply(rules[i], v, matches) == Ok(true)
    ensures r.Err? <==> exists i | 0 <= i < |rules| :: Apply(rules[i], v, matches).Err?
    ensures r.Err? ==> r.error == NullHasNoLength
  {
    if |rules| == 0 then Ok(true)
    else
      match Collect(Results(rules, v, matches))
      case Err(e) => Err(e)
      case Ok(bs) => Ok(Every(bs))
  }

  /** The verdict of one field: read its value from the entry (a missing field throws), then check its rules. */
  function ValidateField(f: FieldDef, rules: seq<Rule>, entry: Entry, matches: Matcher): (r: Result<bool, Fault>)
    requires f.id in entry ==> RulesFit(rules, entry[f.id])
    ensures f.id !in entry ==> r == Err(MissingEntryField(f.id))
    ensures f.id in entry && rules == [] ==> r == Ok(true)
    ensures f.id in entry ==>
      (r == Ok(true) <==> forall i | 0 <= i < |rules| :: Apply(rules[i], entry[f.id], matches) == Ok(true))
    ensures f.id in entry ==>
      (r.Err? <==> exists i | 0 <= i < |rules| :: Apply(rules[i], entry[f.id], matches).Err?)
  {
    if f.id !in entry then Err(MissingEntryField(f.id))
    else Check(rules, entry[f.id], matches)
  }

  /** The rule set covers every field, and every rule fits the value it will be run on. */
  predicate Evaluable(fields: seq<FieldDef>, ruleSet: map<string, seq<Rule>>, entry: Entry) {
    forall i | 0 <= i < |fields| ::
      fields[i].id in ruleSet &&
      (fields[i].id in entry ==> RulesFit(ruleSet[fields[i].id], entry[fields[i].id]))
  }

  /** The per-field verdicts of a content type, field by field. */
  function FieldResults(fields: seq<FieldDef>, ruleSet: map<string, seq<Rule>>, entry: Entry, matches: Matcher)
    : (rs: seq<Result<bool, Fault>>)
    requires Evaluable(fields, ruleSet, entry)
    ensures |rs| == |fields|
    ensures forall i | 0 <= i < |fields| :: rs[i] == ValidateField(fields[i], ruleSet[fields[i].id], entry, matches)
  {
    if fields == [] then []
    else
      [ValidateField(fields[0], ruleSet[fields[0].id], entry, matches)]
      + FieldResults(fields[1..], ruleSet, entry, matches)
  }

  /**
   * The overall verdict: true exactly when every field's verdict is true; a
   * throw in any field aborts, reporting the first field that throws.
   */
  function Evaluate(fields: seq<FieldDef>, ruleSet: map<string, seq<Rule>>, entry: Entry, matches: Matcher)
    : (r: Result<bool, Fault>)
    requires Evaluable(fields, ruleSet, entry)
    ensures r == Ok(true) <==>
      forall i | 0 <= i < |fields| :: ValidateField(fields[i], ruleSet[fields[i].id], entry, matches) == Ok(true)
    ensures r.Err? <==>
      exists i | 0 <= i < |fields| :: ValidateField(fields[i], ruleSet[fields[i].id], entry, matches).Err?
    ensures r.Err? ==>
      exists i | 0 <= i < |fields| ::
        ValidateField(fields[i], ruleSet[fields[i].id], entry, matches) == Err(r.error) &&
        forall j | 0 <= j < i :: ValidateField(fields[j], ruleSet[fields[j].id], entry, matches).Ok?
  {
    var results := FieldResults(fields, ruleSet, entry, matches);
    match Collect(results)
    case Err(e) => Err(e)
    case Ok(bs) => Ok(Every(bs))
  }

  /** The compiled rule set of a content type can be evaluated against any entry whose values fit their fields. */
  lemma CompiledIsEvaluable(fields: seq<FieldDef>, entry: Entry)
    requires EntryFits(fields, entry)
    ensures Evaluable(fields, RuleSetOf(fields), entry)
  {
    forall i | 0 <= i < |fields|
      ensures fields[i].id in RuleSetOf(fields)
      ensures fields[i].id in entry ==> RulesFit(RuleSetOf(fields)[fields[i].id], entry[fields[i].id])
    {
      RuleSetLast(fields, |fields|, i);
      var j :| i <= j < |fields| && fields[j].id == fields[i].id && RuleSetOf(fields)[fields[i].id] == RulesOf(fields[j]);
      if fields[i].id in entry {
        RulesOfFit(fields[j], entry[fields[j].id]);
      }
    }
  }

  /** With distinct field ids the overall verdict is the AND of each field checked against its own rules. */
  lemma VerdictIsConjunction(fields: seq<FieldDef>, entry: Entry, matches: Matcher)
    requires DistinctIds(fields) && EntryFits(fields, entry)
    ensures Evaluable(fields, RuleSetOf(fields), entry)
    ensures forall i | 0 <= i < |fields| && fields[i].id in entry :: RulesFit(RulesOf(fields[i]), entry[fields[i].id])
    ensures Evaluate(fields, RuleSetOf(fields), entry, matches) == Ok(true) <==>
      forall i | 0 <= i < |fields| :: ValidateField(fields[i], RulesOf(fields[i]), entry, matches) == Ok(true)
  {
    CompiledIsEvaluable(fields, entry);
    RuleSetOfDistinct(fields);
  }

  /** The first field, in order, whose check throws decides the fault of the whole pass. */
  lemma FirstFaultAborts(fields: seq<FieldDef>, ruleSet: map<string, seq<Rule>>, entry: Entry, matches: Matcher, k: nat)
    requires Evaluable(fields, ruleSet, entry) && k < |fields|
    requires forall j | 0 <= j < k :: ValidateField(fields[j], ruleSet[fields[j].id], entry, matches).Ok?
    requires ValidateField(fields[k], ruleSet[fields[k].id], entry, matches).Err?
    ensures Evaluate(fields, ruleSet, entry, matches) == Err(ValidateField(fields[k], ruleSet[fields[k].id], entry, matches).error)
  {
    var r := Evaluate(fields, ruleSet, entry, matches);
    assert r.Err?;
    var i :| 0 <= i < |fields| &&
      ValidateField(fields[i], ruleSet[fields[i].id], entry, matches) == Err(r.error) &&
      forall j | 0 <= j < i :: ValidateField(fields[j], ruleSet[fields[j].id], entry, matches).Ok?;
    assert i == k;
  }

  /** When no field throws, the overall verdict is the AND of the per-field verdicts. */
  lemma NoFaultVerdict(fields: seq<FieldDef>, ruleSet: map<string, seq<Rule>>, entry: Entry, matches: Matcher, verdicts: seq<bool>)
    requires Evaluable(fields, ruleSet, entry) && |verdicts| == |fields|
    requires forall j | 0 <= j < |fields| :: ValidateField(fields[j], ruleSet[fields[j].id], entry, matches) == Ok(verdicts[j])
    ensures Evaluate(fields, ruleSet, entry, matches) == Ok(Every(verdicts))
  {
    var r := Evaluate(fields, ruleSet, entry, matches);
    assert r.Ok?;
  }

  /** A field's verdict reads the entry only at the field's own id. */
  lemma ValidateFieldFrame(f: FieldDef, rules: seq<Rule>, entry: Entry, id: string, v: Value, matches: Matcher)
    requires f.id != id
    requires f.id in entry ==> RulesFit(rules, entry[f.id])
    ensures f.id in entry[id := v] ==> RulesFit(rules, entry[id := v][f.id])
    ensures ValidateField(f, rules, entry[id := v], matches) == ValidateField(f, rules, entry, matches)
  {
  }

  /** When one field fails and every other field passes, the overall verdict is false. */
  lemma OneFailingField(fields: seq<FieldDef>, ruleSet: map<string, seq<Rule>>, entry: Entry, matches: Matcher, k: nat)
    requires Evaluable(fields, ruleSet, entry) && k < |fields|
    requires ValidateField(fields[k], ruleSet[fields[k].id], entry, matches) == Ok(false)
    requires forall i | 0 <= i < |fields| && i != k :: ValidateField(fields[i], ruleSet[fields[i].id], entry, matches) == Ok(true)
    ensures Evaluate(fields, ruleSet, entry, matches) == Ok(false)
  {
    var r := Evaluate(fields, ruleSet, entry, matches);
    forall i | 0 <= i < |fields| ensures !ValidateField(fields[i], ruleSet[fields[i].id], entry, matches).Err? {
      if i != k {
        assert ValidateField(fields[i], ruleSet[fields[i].id], entry, matches) == Ok(true);
      }
    }
    assert !r.Err?;
    assert r != Ok(true) by {
      assert ValidateField(fields[k], ruleSet[fields[k].id], entry, matches) != Ok(true);
    }
  }

  /** Replacing one field's value by a value that fits its type keeps the entry fitting the content type. */
  lemma FitsAfterUpdate(fields: seq<FieldDef>, entry: Entry, k: nat, v: Value)
    requires DistinctIds(fields) && EntryFits(fields, entry)
    requires k < |fields| && ValueFits(fields[k].fieldType, v)
    ensures EntryFits(fields, entry[fields[k].id := v])
  {
    var entry' := entry[fields[k].id := v];
    forall i | 0 <= i < |fields| && fields[i].id in entry'
      ensures ValueFits(fields[i].fieldType, entry'[fields[i].id])
    {
      if i < k {
        assert fields[i].id != fields[k].id;
      } else if k < i {
        assert fields[k].id != fields[i].id;
      }
    }
  }

  /**
   * Holding the other fields fixed, turning one field of a valid entry
   * invalid turns the overall verdict from true to false.
   */
  lemma OneInvalidFieldFails(fields: seq<FieldDef>, entry: Entry, matches: Matcher, k: nat, v: Value)
    requires DistinctIds(fields) && EntryFits(fields, entry)
    requires k < |fields| && ValueFits(fields[k].fieldType, v)
    requires Evaluable(fields, RuleSetOf(fields), entry)
    requires Evaluate(fields, RuleSetOf(fields), entry, matches) == Ok(true)
    requires RulesFit(RulesOf(fields[k]), v)
    requires ValidateField(fields[k], RulesOf(fields[k]), entry[fields[k].id := v], matches) == Ok(false)
    ensures EntryFits(fields, entry[fields[k].id := v])
    ensures Evaluable(fields, RuleSetOf(fields), entry[fields[k].id := v])
    ensures Evaluate(fields, RuleSetOf(fields), entry[fields[k].id := v], matches) == Ok(false)
  {
    var id := fields[k].id;
    var entry' := entry[id := v];
    var ruleSet := RuleSetOf(fields);
    FitsAfterUpdate(fields, entry, k, v);
    RuleSetOfDistinct(fields);
    CompiledIsEvaluable(fields, entry');
    forall i | 0 <= i < |fields| && i != k
      ensures ValidateField(fields[i], ruleSet[fields[i].id], entry', matches) == Ok(true)
    {
      ValidateFieldFrame(fields[i], ruleSet[fields[i].id], entry, id, v, matches);
    }
    OneFailingField(fields, ruleSet, entry', matches, k);
  }
}
