/**
 * The rule compiler: turns a field definition into its ordered list of
 * predicates. The string and number rule tables are probed key by key, in
 * table order, for every declaration in turn; the shared required rule is
 * appended last.
 */
module Compiler {
  import opened Wrappers
  import opened Schema
  import opened Predicates

  /** A key of a rule table. */
  datatype Key = UniqueKey | SizeKey | ProhibitRegexpKey | RangeKey

  /** The string rule table, in the order its keys are enumerated. */
  function StringKeys(): seq<Key> {
    [UniqueKey, SizeKey, ProhibitRegexpKey]
  }

  /** The number rule table. */
  function NumberKeys(): seq<Key> {
    [RangeKey]
  }

  /** Does the declaration own the key? */
  predicate Has(d: Declaration, k: Key) {
    match k
    case UniqueKey => d.unique
    case SizeKey => d.size.Some?
    case ProhibitRegexpKey => d.prohibitRegexp.Some?
    case RangeKey => d.range.Some?
  }

  /** The builder a table key names, applied to a declaration that owns the key. */
  function Build(k: Key, d: Declaration): (r: Rule)
    requires Has(d, k)
  {
    match k
    case UniqueKey => UniqueRule
    case SizeKey => SizeRule(d.size.value)
    case ProhibitRegexpKey => ProhibitRule(d.prohibitRegexp.value)
    case RangeKey => RangeRule(d.range.value)
  }

  /** The rules one declaration yields under a table: one per owned key, in table order. */
  function DeclRules(keys: seq<Key>, d: Declaration): seq<Rule>
  {
    if keys == [] then []
    else
      var k := keys[|keys| - 1];
      DeclRules(keys[..|keys| - 1], d) + (if Has(d, k) then [Build(k, d)] else [])
  }

  /** The rules a list of declarations yields under a table, declaration after declaration. */
  function TableRules(keys: seq<Key>, decls: seq<Declaration>): seq<Rule>
  {
    if decls == [] then []
    else TableRules(keys, decls[..|decls| - 1]) + DeclRules(keys, decls[|decls| - 1])
  }

  /** The type-specific rules of a field, dispatched on its type tag. */
  function TypeRules(f: FieldDef): seq<Rule>
  {
    if IsStringType(f.fieldType) then TableRules(StringKeys(), f.validations)
    else if IsNumberType(f.fieldType) then TableRules(NumberKeys(), f.validations)
    else []
  }

  /** The shared rules of a field: the required rule when the field is required. */
  function SharedRules(f: FieldDef): seq<Rule>
  {
    if f.required then [RequiredRule] else []
  }

  /** All rules of a field: the type-specific ones followed by the shared ones. */
  function RulesOf(f: FieldDef): seq<Rule>
  {
    TypeRules(f) + SharedRules(f)
  }

  /**
   * The rule set built from the first `n` fields: field id to rules, a later
   * field overwriting an earlier one with the same id.
   */
  function RuleSetUpTo(fields: seq<FieldDef>, n: nat): map<string, seq<Rule>>
    requires n <= |fields|
  {
    if n == 0 then map[]
    else RuleSetUpTo(fields, n - 1)[fields[n - 1].id := RulesOf(fields[n - 1])]
  }

  /** The rule set of a content type: every field, in order. */
  function RuleSetOf(fields: seq<FieldDef>): map<string, seq<Rule>>
  {
    RuleSetUpTo(fields, |fields|)
  }

  // ---------------------------------------------------------------------
  // The builders, as the source runs them: loops that push onto a list.
  // ---------------------------------------------------------------------

  /** For every declaration, for every key of the table it owns, push the key's rule. */
  method BuildFromTable(keys: seq<Key>, decls: seq<Declaration>) returns (rules: seq<Rule>)
    ensures rules == TableRules(keys, decls)
  {
    rules := [];
    for i := 0 to |decls|
      invariant rules == TableRules(keys, decls[..i])
    {
      assert decls[..i + 1][..i] == decls[..i];
      ghost var before := rules;
      for j := 0 to |keys|
        invariant rules == before + DeclRules(keys[..j], decls[i])
      {
        assert keys[..j + 1][..j] == keys[..j];
        if Has(decls[i], keys[j]) {
          rules := rules + [Build(keys[j], decls[i])];
        }
      }
      assert keys[..|keys|] == keys;
    }
    assert decls[..|decls|] == decls;
  }

  /** The string rules of a list of declarations. */
  method BuildStringValidations(decls: seq<Declaration>) returns (rules: seq<Rule>)
    ensures rules == TableRules(StringKeys(), decls)
  {
    rules := BuildFromTable(StringKeys(), decls);
  }

  /** The number rules of a list of declarations. */
  method BuildNumberValidations(decls: seq<Declaration>) returns (rules: seq<Rule>)
    ensures rules == TableRules(NumberKeys(), decls)
  {
    rules := BuildFromTable(NumberKeys(), decls);
  }

  /** The shared rules of a field. */
  method BuildSharedValidations(f: FieldDef) returns (rules: seq<Rule>)
    ensures rules == SharedRules(f)
  {
    rules := [];
    if f.required {
      rules := rules + [RequiredRule];
    }
  }

  /** The rules of one field: dispatch on the type tag, then append the shared rules. */
  method BuildValidations(f: FieldDef) returns (rules: seq<Rule>)
    ensures rules == RulesOf(f)
  {
    rules := [];
    if IsStringType(f.fieldType) {
      var typed := BuildStringValidations(f.validations);
      rules := rules + typed;
    } else if IsNumberType(f.fieldType) {
      var typed := BuildNumberValidations(f.validations);
      rules := rules + typed;
    }
    var shared := BuildSharedValidations(f);
    rules := rules + shared;
  }

  // ---------------------------------------------------------------------
  // What the compiled rule lists are.
  // ---------------------------------------------------------------------

  /** Declarations are compiled in order: the rules of a concatenation are the concatenation of the rules. */
  lemma {:induction false} TableRulesAppend(keys: seq<Key>, a: seq<Declaration>, b: seq<Declaration>)
    ensures TableRules(keys, a + b) == TableRules(keys, a) + TableRules(keys, b)
    decreases |b|
  {
    if b == [] {
      assert a + b == a;
    } else {
      var b', d := b[..|b| - 1], b[|b| - 1];
      assert (a + b)[..|a + b| - 1] == a + b';
      assert (a + b)[|a + b| - 1] == d;
      calc {
        TableRules(keys, a + b);
        TableRules(keys, a + b') + DeclRules(keys, d);
        { TableRulesAppend(keys, a, b'); }
        TableRules(keys, a) + TableRules(keys, b') + DeclRules(keys, d);
        TableRules(keys, a) + TableRules(keys, b);
      }
    }
  }

  /** Within one declaration the string keys are tried in the order unique, size, prohibitRegexp. */
  lemma StringDeclRules(d: Declaration)
    ensures DeclRules(StringKeys(), d)
         == (if d.unique then [UniqueRule] else [])
          + (if d.size.Some? then [SizeRule(d.size.value)] else [])
          + (if d.prohibitRegexp.Some? then [ProhibitRule(d.prohibitRegexp.value)] else [])
  {
    var k0, k1, k2 := StringKeys()[..1][..0], StringKeys()[..2][..1], StringKeys()[..2];
    assert k0 == [] && k1 == [UniqueKey] && k2 == [UniqueKey, SizeKey];
    assert DeclRules(k1, d) == if d.unique then [UniqueRule] else [];
    assert DeclRules(k2, d) == DeclRules(k1, d) + (if d.size.Some? then [SizeRule(d.size.value)] else []);
  }

  /** A declaration yields a range rule under the number table exactly when it owns `range`. */
  lemma NumberDeclRules(d: Declaration)
    ensures DeclRules(NumberKeys(), d) == if d.range.Some? then [RangeRule(d.range.value)] else []
  {
    assert NumberKeys()[..0] == [];
  }

  /** A rule is in a declaration's rules exactly when the declaration owns a table key that builds it. */
  lemma {:induction false} DeclRulesMember(keys: seq<Key>, d: Declaration, r: Rule)
    ensures r in DeclRules(keys, d) <==> exists j | 0 <= j < |keys| :: Has(d, keys[j]) && r == Build(keys[j], d)
    decreases |keys|
  {
    if keys != [] {
      var keys' := keys[..|keys| - 1];
      DeclRulesMember(keys', d, r);
      if r in DeclRules(keys, d) && r !in DeclRules(keys', d) {
        assert Has(d, keys[|keys| - 1]) && r == Build(keys[|keys| - 1], d);
      }
      if exists j | 0 <= j < |keys| :: Has(d, keys[j]) && r == Build(keys[j], d) {
        var j :| 0 <= j < |keys| && Has(d, keys[j]) && r == Build(keys[j], d);
        if j < |keys| - 1 {
          assert keys'[j] == keys[j];
        }
      }
    }
  }

  /**
   * A rule is in the compiled list exactly when some declaration owns some
   * table key whose builder yields that rule: nothing is invented and nothing
   * recognised is dropped.
   */
  lemma {:induction false} TableRulesMember(keys: seq<Key>, decls: seq<Declaration>, r: Rule)
    ensures r in TableRules(keys, decls)
        <==> exists i, j | 0 <= i < |decls| && 0 <= j < |keys| :: Has(decls[i], keys[j]) && r == Build(keys[j], decls[i])
    decreases |decls|
  {
    if decls != [] {
      var decls' := decls[..|decls| - 1];
      var d := decls[|decls| - 1];
      TableRulesMember(keys, decls', r);
      DeclRulesMember(keys, d, r);
      if r in TableRules(keys, decls) {
        if r in DeclRules(keys, d) {
          var j :| 0 <= j < |keys| && Has(d, keys[j]) && r == Build(keys[j], d);
          assert Has(decls[|decls| - 1], keys[j]);
        } else {
          var i, j :| 0 <= i < |decls'| && 0 <= j < |keys| && Has(decls'[i], keys[j]) && r == Build(keys[j], decls'[i]);
          assert decls'[i] == decls[i];
        }
      }
      if exists i, j | 0 <= i < |decls| && 0 <= j < |keys| :: Has(decls[i], keys[j]) && r == Build(keys[j], decls[i]) {
        var i, j :| 0 <= i < |decls| && 0 <= j < |keys| && Has(decls[i], keys[j]) && r == Build(keys[j], decls[i]);
        if i < |decls| - 1 {
          assert decls'[i] == decls[i];
        }
      }
    }
  }

  /** The type-specific rules never include the required rule and follow the field's rule table. */
  lemma TypeRulesKinds(f: FieldDef)
    ensures forall r | r in TypeRules(f) :: !r.RequiredRule?
    ensures IsStringType(f.fieldType) ==>
      forall r | r in TypeRules(f) :: r.UniqueRule? || r.SizeRule? || r.ProhibitRule?
    ensures IsNumberType(f.fieldType) ==> forall r | r in TypeRules(f) :: r.RangeRule?
  {
    forall r | r in TypeRules(f)
      ensures !r.RequiredRule?
      ensures IsStringType(f.fieldType) ==> r.UniqueRule? || r.SizeRule? || r.ProhibitRule?
      ensures IsNumberType(f.fieldType) ==> r.RangeRule?
    {
      if IsStringType(f.fieldType) {
        TableRulesMember(StringKeys(), f.validations, r);
      } else if IsNumberType(f.fieldType) {
        TableRulesMember(NumberKeys(), f.validations, r);
      }
    }
  }

  /**
   * Type dispatch: a string field's rules are unique, size, prohibitRegexp or
   * required rules; a number field's are range or required rules; a field of
   * any other type has only its shared rules.
   */
  lemma DispatchByType(f: FieldDef)
    ensures IsStringType(f.fieldType) ==>
      forall r | r in RulesOf(f) :: r.UniqueRule? || r.SizeRule? || r.ProhibitRule? || r.RequiredRule?
    ensures IsNumberType(f.fieldType) ==>
      forall r | r in RulesOf(f) :: r.RangeRule? || r.RequiredRule?
    ensures !IsStringType(f.fieldType) && !IsNumberType(f.fieldType) ==> RulesOf(f) == SharedRules(f)
  {
    TypeRulesKinds(f);
  }

  /**
   * The rules of a string field are exactly: the unique, size and
   * prohibitRegexp rules its declarations ask for, and the required rule
   * when the field is required.
   */
  lemma StringRulesOf(f: FieldDef, r: Rule)
    requires IsStringType(f.fieldType)
    ensures r in RulesOf(f) <==>
      (f.required && r == RequiredRule) ||
      exists i | 0 <= i < |f.validations| ::
        (f.validations[i].unique && r == UniqueRule) ||
        (f.validations[i].size.Some? && r == SizeRule(f.validations[i].size.value)) ||
        (f.validations[i].prohibitRegexp.Some? && r == ProhibitRule(f.validations[i].prohibitRegexp.value))
  {
    var keys, decls := StringKeys(), f.validations;
    TableRulesMember(keys, decls, r);
    if exists i | 0 <= i < |decls| ::
        (decls[i].unique && r == UniqueRule) ||
        (decls[i].size.Some? && r == SizeRule(decls[i].size.value)) ||
        (decls[i].prohibitRegexp.Some? && r == ProhibitRule(decls[i].prohibitRegexp.value))
    {
      var i :| 0 <= i < |decls| &&
        ((decls[i].unique && r == UniqueRule) ||
         (decls[i].size.Some? && r == SizeRule(decls[i].size.value)) ||
         (decls[i].prohibitRegexp.Some? && r == ProhibitRule(decls[i].prohibitRegexp.value)));
      var j := if decls[i].unique && r == UniqueRule then 0
        else if decls[i].size.Some? && r == SizeRule(decls[i].size.value) then 1
        else 2;
      assert Has(decls[i], keys[j]) && r == Build(keys[j], decls[i]);
    }
  }

  /**
   * The rules of a number field are exactly: the range rules its
   * declarations ask for, and the required rule when the field is required.
   */
  lemma NumberRulesOf(f: FieldDef, r: Rule)
    requires IsNumberType(f.fieldType)
    ensures r in RulesOf(f) <==>
      (f.required && r == RequiredRule) ||
      exists i | 0 <= i < |f.validations| ::
        f.validations[i].range.Some? && r == RangeRule(f.validations[i].range.value)
  {
    var keys, decls := NumberKeys(), f.validations;
    TableRulesMember(keys, decls, r);
    if exists i | 0 <= i < |decls| :: decls[i].range.Some? && r == RangeRule(decls[i].range.value) {
      var i :| 0 <= i < |decls| && decls[i].range.Some? && r == RangeRule(decls[i].range.value);
      assert Has(decls[i], keys[0]) && r == Build(keys[0], decls[i]);
    }
  }

  /**
   * The required flag adds exactly one rule, the last one, and that rule
   * appears nowhere else; a field that is not required has no required rule.
   */
  lemma RequiredAddsOneRule(f: FieldDef)
    ensures RequiredRule in RulesOf(f) <==> f.required
    ensures f.required ==>
      |RulesOf(f)| == |TypeRules(f)| + 1 &&
      RulesOf(f)[|RulesOf(f)| - 1] == RequiredRule &&
      RequiredRule !in RulesOf(f)[..|RulesOf(f)| - 1]
  {
    TypeRulesKinds(f);
    assert RulesOf(f)[..|TypeRules(f)|] == TypeRules(f);
  }

  /** Every rule of a field fits a value that fits the field's type. */
  lemma RulesOfFit(f: FieldDef, v: Value)
    requires ValueFits(f.fieldType, v)
    ensures RulesFit(RulesOf(f), v)
  {
    DispatchByType(f);
    forall i | 0 <= i < |RulesOf(f)| ensures Fits(RulesOf(f)[i], v) {
      assert RulesOf(f)[i] in RulesOf(f);
    }
  }

  /** The rule set of a prefix has an entry for each field id of the prefix and no other. */
  lemma {:induction false} RuleSetKeys(fields: seq<FieldDef>, n: nat)
    requires n <= |fields|
    ensures forall id :: id in RuleSetUpTo(fields, n) <==> exists i | 0 <= i < n :: fields[i].id == id
  {
    if n > 0 {
      RuleSetKeys(fields, n - 1);
      forall id | id in RuleSetUpTo(fields, n)
        ensures exists i | 0 <= i < n :: fields[i].id == id
      {
        if id != fields[n - 1].id {
          assert id in RuleSetUpTo(fields, n - 1);
          var i :| 0 <= i < n - 1 && fields[i].id == id;
        }
      }
    }
  }

  /**
   * Within a prefix of `n` fields, the rules stored for the id of field `i`
   * are those of the last field of the prefix carrying that id.
   */
  lemma {:induction false} RuleSetLast(fields: seq<FieldDef>, n: nat, i: nat)
    requires i < n <= |fields|
    ensures fields[i].id in RuleSetUpTo(fields, n)
    ensures exists j | i <= j < n :: fields[j].id == fields[i].id && RuleSetUpTo(fields, n)[fields[i].id] == RulesOf(fields[j])
    ensures (forall j | i < j < n :: fields[j].id != fields[i].id) ==> RuleSetUpTo(fields, n)[fields[i].id] == RulesOf(fields[i])
  {
    if fields[n - 1].id != fields[i].id {
      RuleSetLast(fields, n - 1, i);
    }
  }

  /** With distinct ids, each field's id maps to exactly that field's rules. */
  lemma RuleSetOfDistinct(fields: seq<FieldDef>)
    requires DistinctIds(fields)
    ensures forall i | 0 <= i < |fields| :: fields[i].id in RuleSetOf(fields) && RuleSetOf(fields)[fields[i].id] == RulesOf(fields[i])
  {
    forall i | 0 <= i < |fields|
      ensures fields[i].id in RuleSetOf(fields) && RuleSetOf(fields)[fields[i].id] == RulesOf(fields[i])
    {
      RuleSetLast(fields, |fields|, i);
    }
  }
}
