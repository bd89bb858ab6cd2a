/**
 * What a field's compiled rules decide, stated directly in terms of the
 * field's declarations, and the worked cases of the sidebar's behaviour.
 */
module Properties {
  import opened Wrappers
  import opened Schema
  import opened Predicates
  import opened Compiler
  import opened Evaluator

  /** Every size declaration admits the length. */
  predicate SizesAdmit(decls: seq<Declaration>, len: int) {
    forall i | 0 <= i < |decls| && decls[i].size.Some? :: Admits(decls[i].size.value, len)
  }

  /** No prohibited pattern matches the subject. */
  predicate NoProhibitedMatch(decls: seq<Declaration>, subject: string, matches: Matcher) {
    forall i | 0 <= i < |decls| && decls[i].prohibitRegexp.Some? ::
      !matches(decls[i].prohibitRegexp.value.pattern, Flags(decls[i].prohibitRegexp.value), subject)
  }

  /** Every range declaration admits the number. */
  predicate RangesAdmit(decls: seq<Declaration>, n: int) {
    forall i | 0 <= i < |decls| && decls[i].range.Some? :: Admits(decls[i].range.value, n)
  }

  /** Some declaration carries a size object with a truthy bound. */
  predicate DeclaresSize(decls: seq<Declaration>) {
    exists i | 0 <= i < |decls| :: decls[i].size.Some? && Bounded(decls[i].size.value)
  }

  /** A rule list whose rules cannot throw on the value reports whether all of them pass. */
  lemma CheckWithoutFault(rules: seq<Rule>, v: Value, matches: Matcher, pass: bool)
    requires RulesFit(rules, v)
    requires forall i | 0 <= i < |rules| :: Apply(rules[i], v, matches).Ok?
    requires pass <==> forall i | 0 <= i < |rules| :: Apply(rules[i], v, matches) == Ok(true)
    ensures Check(rules, v, matches) == Ok(pass)
  {
  }

  /**
   * A string field holding a string passes exactly when every size bound
   * admits its length and no prohibited pattern matches it; neither the
   * unique nor the required rule can fail it.
   */
  lemma StringFieldVerdict(f: FieldDef, s: string, matches: Matcher)
    requires IsStringType(f.fieldType)
    ensures RulesFit(RulesOf(f), Str(s)) &&
      Check(RulesOf(f), Str(s), matches) ==
        Ok(SizesAdmit(f.validations, |s|) && NoProhibitedMatch(f.validations, s, matches))
  {
    var rules, v, decls := RulesOf(f), Str(s), f.validations;
    RulesOfFit(f, v);
    var pass := SizesAdmit(decls, |s|) && NoProhibitedMatch(decls, s, matches);
    if pass {
      forall i | 0 <= i < |rules| ensures Apply(rules[i], v, matches) == Ok(true) {
        StringRulesOf(f, rules[i]);
      }
    } else if !SizesAdmit(decls, |s|) {
      var i :| 0 <= i < |decls| && decls[i].size.Some? && !Admits(decls[i].size.value, |s|);
      StringRulesOf(f, SizeRule(decls[i].size.value));
      var k :| 0 <= k < |rules| && rules[k] == SizeRule(decls[i].size.value);
      assert Apply(rules[k], v, matches) == Ok(false);
    } else {
      var i :| 0 <= i < |decls| && decls[i].prohibitRegexp.Some? &&
        matches(decls[i].prohibitRegexp.value.pattern, Flags(decls[i].prohibitRegexp.value), s);
      StringRulesOf(f, ProhibitRule(decls[i].prohibitRegexp.value));
      var k :| 0 <= k < |rules| && rules[k] == ProhibitRule(decls[i].prohibitRegexp.value);
      assert Apply(rules[k], v, matches) == Ok(false);
    }
    CheckWithoutFault(rules, v, matches, pass);
  }

  /**
   * A string field holding null throws as soon as any declaration carries a
   * size object with a truthy bound (the length of null is read); otherwise
   * it passes exactly when it is not required and no prohibited pattern
   * matches "null".
   */
  lemma StringFieldNull(f: FieldDef, matches: Matcher)
    requires IsStringType(f.fieldType)
    ensures RulesFit(RulesOf(f), Null) &&
      Check(RulesOf(f), Null, matches) ==
        if DeclaresSize(f.validations) then Err(NullHasNoLength)
        else Ok(!f.required && NoProhibitedMatch(f.validations, "null", matches))
  {
    var rules, decls := RulesOf(f), f.validations;
    RulesOfFit(f, Null);
    if DeclaresSize(decls) {
      var i :| 0 <= i < |decls| && decls[i].size.Some? && Bounded(decls[i].size.value);
      StringRulesOf(f, SizeRule(decls[i].size.value));
      var k :| 0 <= k < |rules| && rules[k] == SizeRule(decls[i].size.value);
      assert Apply(rules[k], Null, matches).Err?;
    } else {
      var pass := !f.required && NoProhibitedMatch(decls, "null", matches);
      forall i | 0 <= i < |rules| ensures Apply(rules[i], Null, matches).Ok? {
        StringRulesOf(f, rules[i]);
      }
      if pass {
        forall i | 0 <= i < |rules| ensures Apply(rules[i], Null, matches) == Ok(true) {
          StringRulesOf(f, rules[i]);
        }
      } else if f.required {
        StringRulesOf(f, RequiredRule);
        var k :| 0 <= k < |rules| && rules[k] == RequiredRule;
        assert Apply(rules[k], Null, matches) == Ok(false);
      } else {
        var i :| 0 <= i < |decls| && decls[i].prohibitRegexp.Some? &&
          matches(decls[i].prohibitRegexp.value.pattern, Flags(decls[i].prohibitRegexp.value), "null");
        StringRulesOf(f, ProhibitRule(decls[i].prohibitRegexp.value));
        var k :| 0 <= k < |rules| && rules[k] == ProhibitRule(decls[i].prohibitRegexp.value);
        assert Apply(rules[k], Null, matches) == Ok(false);
      }
      CheckWithoutFault(rules, Null, matches, pass);
    }
  }

  /** A number field holding a number passes exactly when every range bound admits it. */
  lemma NumberFieldVerdict(f: FieldDef, n: int, matches: Matcher)
    requires IsNumberType(f.fieldType)
    ensures RulesFit(RulesOf(f), Num(n)) &&
      Check(RulesOf(f), Num(n), matches) == Ok(RangesAdmit(f.validations, n))
  {
    var rules, v, decls := RulesOf(f), Num(n), f.validations;
    RulesOfFit(f, v);
    var pass := RangesAdmit(decls, n);
    if pass {
      forall i | 0 <= i < |rules| ensures Apply(rules[i], v, matches) == Ok(true) {
        NumberRulesOf(f, rules[i]);
      }
    } else {
      var i :| 0 <= i < |decls| && decls[i].range.Some? && !Admits(decls[i].range.value, n);
      NumberRulesOf(f, RangeRule(decls[i].range.value));
      var k :| 0 <= k < |rules| && rules[k] == RangeRule(decls[i].range.value);
      assert Apply(rules[k], v, matches) == Ok(false);
    }
    CheckWithoutFault(rules, v, matches, pass);
  }

  /**
   * A number field holding null is compared as 0: it passes exactly when it
   * is not required and every range bound admits 0.
   */
  lemma NumberFieldNull(f: FieldDef, matches: Matcher)
    requires IsNumberType(f.fieldType)
    ensures RulesFit(RulesOf(f), Null) &&
      Check(RulesOf(f), Null, matches) == Ok(!f.required && RangesAdmit(f.validations, 0))
  {
    var rules, decls := RulesOf(f), f.validations;
    RulesOfFit(f, Null);
    var pass := !f.required && RangesAdmit(decls, 0);
    forall i | 0 <= i < |rules| ensures Apply(rules[i], Null, matches).Ok? {
      NumberRulesOf(f, rules[i]);
    }
    if pass {
      forall i | 0 <= i < |rules| ensures Apply(rules[i], Null, matches) == Ok(true) {
        NumberRulesOf(f, rules[i]);
      }
    } else if f.required {
      NumberRulesOf(f, RequiredRule);
      var k :| 0 <= k < |rules| && rules[k] == RequiredRule;
      assert Apply(rules[k], Null, matches) == Ok(false);
    } else {
      var i :| 0 <= i < |decls| && decls[i].range.Some? && !Admits(decls[i].range.value, 0);
      NumberRulesOf(f, RangeRule(decls[i].range.value));
      var k :| 0 <= k < |rules| && rules[k] == RangeRule(decls[i].range.value);
      assert Apply(rules[k], Null, matches) == Ok(false);
    }
    CheckWithoutFault(rules, Null, matches, pass);
  }

  /** A field of any other type fails only when it is required and null; its declarations are ignored. */
  lemma OtherFieldVerdict(f: FieldDef, v: Value, matches: Matcher)
    requires !IsStringType(f.fieldType) && !IsNumberType(f.fieldType)
    ensures RulesFit(RulesOf(f), v) &&
      Check(RulesOf(f), v, matches) == Ok(!(f.required && v.Null?))
  {
    DispatchByType(f);
    RulesOfFit(f, v);
  }

  /** A required Text field with size bounds 5 to 10. */
  function TitleField(): FieldDef {
    FieldDef("title", "Text", true, [Declaration(false, Some(Bounds(Some(5), Some(10))), None, None)])
  }

  /** An optional Integer field with a lower range bound of 18. */
  function AgeField(): FieldDef {
    FieldDef("age", "Integer", false, [Declaration(false, None, None, Some(Bounds(Some(18), None)))])
  }

  /** The title field: "hi" is too short and "hello" passes. */
  lemma TitleScenario(matches: Matcher)
    ensures RulesFit(RulesOf(TitleField()), Str("hi")) && Check(RulesOf(TitleField()), Str("hi"), matches) == Ok(false)
    ensures RulesFit(RulesOf(TitleField()), Str("hello")) && Check(RulesOf(TitleField()), Str("hello"), matches) == Ok(true)
  {
    var f := TitleField();
    StringFieldVerdict(f, "hi", matches);
    assert !Admits(f.validations[0].size.value, |"hi"|);
    StringFieldVerdict(f, "hello", matches);
  }

  /**
   * An empty title throws: the size rule reads the length of null before the
   * required rule runs, so the pass aborts instead of reporting false.
   */
  lemma TitleNullScenario(matches: Matcher)
    ensures RulesFit(RulesOf(TitleField()), Null) && Check(RulesOf(TitleField()), Null, matches) == Err(NullHasNoLength)
  {
    var f := TitleField();
    StringFieldNull(f, matches);
    assert f.validations[0].size.Some? && Bounded(f.validations[0].size.value);
  }

  /** A required Text field whose only size bound is `min: 0`. */
  function ZeroSizeField(): FieldDef {
    FieldDef("title", "Text", true, [Declaration(false, Some(Bounds(Some(0), None)), None, None)])
  }

  /**
   * An empty title whose size object has no truthy bound does not throw: the
   * size rule never reads the length, and the required rule fails it.
   */
  lemma ZeroSizeNullScenario(matches: Matcher)
    ensures RulesFit(RulesOf(ZeroSizeField()), Null) && Check(RulesOf(ZeroSizeField()), Null, matches) == Ok(false)
  {
    var f := ZeroSizeField();
    StringFieldNull(f, matches);
    assert !DeclaresSize(f.validations);
  }

  /** The age field: 17 fails, 18 and 1000 pass. */
  lemma AgeScenario(matches: Matcher)
    ensures RulesFit(RulesOf(AgeField()), Num(17)) && Check(RulesOf(AgeField()), Num(17), matches) == Ok(false)
    ensures RulesFit(RulesOf(AgeField()), Num(18)) && Check(RulesOf(AgeField()), Num(18), matches) == Ok(true)
    ensures RulesFit(RulesOf(AgeField()), Num(1000)) && Check(RulesOf(AgeField()), Num(1000), matches) == Ok(true)
  {
    var f := AgeField();
    NumberFieldVerdict(f, 17, matches);
    assert !Admits(f.validations[0].range.value, 17);
    NumberFieldVerdict(f, 18, matches);
    NumberFieldVerdict(f, 1000, matches);
  }

  /** An empty age fails even though the field is optional: null is compared with the bound as 0. */
  lemma AgeNullScenario(matches: Matcher)
    ensures RulesFit(RulesOf(AgeField()), Null) && Check(RulesOf(AgeField()), Null, matches) == Ok(false)
  {
    var f := AgeField();
    NumberFieldNull(f, matches);
    assert !Admits(f.validations[0].range.value, 0);
  }

  /** The whole content type: a valid title and an age under 18 make the entry invalid. */
  lemma ContentTypeScenario(matches: Matcher)
    ensures Evaluable([TitleField(), AgeField()], RuleSetOf([TitleField(), AgeField()]), map["title" := Str("hello"), "age" := Num(17)])
    ensures Evaluate([TitleField(), AgeField()], RuleSetOf([TitleField(), AgeField()]),
      map["title" := Str("hello"), "age" := Num(17)], matches) == Ok(false)
  {
    var fields := [TitleField(), AgeField()];
    var entry := map["title" := Str("hello"), "age" := Num(17)];
    var ruleSet := RuleSetOf(fields);
    assert EntryFits(fields, entry) && DistinctIds(fields);
    RuleSetOfDistinct(fields);
    CompiledIsEvaluable(fields, entry);
    TitleScenario(matches);
    AgeScenario(matches);
    assert fields[0].id in entry && entry[fields[0].id] == Str("hello");
    assert fields[1].id in entry && entry[fields[1].id] == Num(17);
    assert ruleSet[fields[0].id] == RulesOf(TitleField()) && ruleSet[fields[1].id] == RulesOf(AgeField());
    assert ValidateField(fields[0], ruleSet[fields[0].id], entry, matches) == Ok(true);
    assert ValidateField(fields[1], ruleSet[fields[1].id], entry, matches) == Ok(false);
    OneFailingField(fields, ruleSet, entry, matches, 1);
  }
}
