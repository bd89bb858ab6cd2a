/**
 * The sidebar component's validation state: it compiles the rule set of
 * its content type and, on every pass, stores the overall verdict in its
 * `valid` flag. The host entry and the regular-expression engine are
 * handed in by the caller.
 */
module Sidebar {
  import opened Wrappers
  import opened Schema
  import opened Predicates
  import opened Compiler
  import opened Evaluator

  class SidebarExtension {
    /** The content type's field definitions, in the order the host lists them. */
    const contentType: seq<FieldDef>
    /** The verdict the sidebar shows. */
    var valid: bool

    /** A fresh sidebar shows the entry as valid until the first pass. */
    constructor (contentType: seq<FieldDef>)
      ensures this.contentType == contentType
      ensures valid
    {
      this.contentType := contentType;
      valid := true;
    }

    /** Compiles every field of the content type, storing its rules under its id; a later field overwrites an earlier one. */
    method BuildAllValidations() returns (validations: map<string, seq<Rule>>)
      ensures validations == RuleSetOf(contentType)
      ensures forall id :: id in validations <==> exists i | 0 <= i < |contentType| :: contentType[i].id == id
    {
      validations := map[];
      for i := 0 to |contentType|
        invariant validations == RuleSetUpTo(contentType, i)
      {
        var field := contentType[i];
        var rules := BuildValidations(field);
        assert RuleSetUpTo(contentType, i + 1) == RuleSetUpTo(contentType, i)[field.id := RulesOf(field)];
        validations := validations[field.id := rules];
      }
      RuleSetKeys(contentType, |contentType|);
    }

    /**
     * Checks every field of the content type in order against the rules
     * stored under its id and ANDs the verdicts; the first field that throws
     * aborts the map.
     */
    method ValidateFields(validations: map<string, seq<Rule>>, entry: Entry, matches: Matcher)
      returns (outcome: Result<bool, Fault>)
      requires Evaluable(contentType, validations, entry)
      ensures outcome == Evaluate(contentType, validations, entry, matches)
    {
      var verdicts: seq<bool> := [];
      for i := 0 to |contentType|
        invariant |verdicts| == i
        invariant forall j | 0 <= j < i ::
          ValidateField(contentType[j], validations[contentType[j].id], entry, matches) == Ok(verdicts[j])
      {
        var field := contentType[i];
        var r := ValidateField(field, validations[field.id], entry, matches);
        if r.Err? {
          FirstFaultAborts(contentType, validations, entry, matches, i);
          return Err(r.error);
        }
        verdicts := verdicts + [r.value];
      }
      NoFaultVerdict(contentType, validations, entry, matches, verdicts);
      return Ok(Every(verdicts));
    }

    /**
     * One validation pass: compile the rule set, check every field and store
     * the verdict. A throw aborts the pass and leaves the shown verdict as it
     * was.
     */
    method ValidateAll(entry: Entry, matches: Matcher) returns (outcome: Result<bool, Fault>)
      requires EntryFits(contentType, entry)
      modifies this
      ensures Evaluable(contentType, RuleSetOf(contentType), entry) &&
        outcome == Evaluate(contentType, RuleSetOf(contentType), entry, matches)
      ensures valid == if outcome.Ok? then outcome.value else old(valid)
    {
      var validations := BuildAllValidations();
      CompiledIsEvaluable(contentType, entry);
      outcome := ValidateFields(validations, entry, matches);
      if outcome.Ok? {
        valid := outcome.value;
      }
    }
  }
}
