/**
 * The compiled predicates. Each closure the compiler builds is represented by
 * a `Rule` value, and `Apply` runs it against a field value.
 */
module Predicates {
  import opened Wrappers
  import opened Schema

  /**
   * The host's regular-expression engine: does `pattern`, compiled with
   * `flags`, match somewhere in `subject`? Its semantics are not modelled.
   */
  type Matcher = (string, string, string) -> bool

  /** A compiled predicate: unique, size, prohibitRegexp, range, or the shared required rule. */
  datatype Rule =
    | UniqueRule
    | SizeRule(size: Bounds)
    | ProhibitRule(re: Regexp)
    | RangeRule(range: Bounds)
    | RequiredRule

  /** What a predicate or a field lookup throws. */
  datatype Fault =
    | NullHasNoLength             // reading `length` of null in a size predicate
    | MissingEntryField(id: string)  // the entry has no field with that id

  /** JavaScript truthiness of an optional number: absent and 0 are both falsy. */
  predicate Truthy(x: Option<int>) {
    x.Some? && x.value != 0
  }

  /** Some bound is truthy, so the predicate compares against the value. */
  predicate Bounded(b: Bounds) {
    Truthy(b.min) || Truthy(b.max)
  }

  /**
   * The bound check shared by the size and range predicates: each bound is
   * enforced only when it is truthy, so a bound of 0 is no bound at all.
   */
  function Admits(b: Bounds, x: int): (ok: bool)
    ensures ok <==> (Truthy(b.min) ==> b.min.value <= x) && (Truthy(b.max) ==> x <= b.max.value)
    ensures !Truthy(b.min) && !Truthy(b.max) ==> ok
  {
    if Truthy(b.min) && Truthy(b.max) then
      b.min.value <= x && b.max.value >= x
    else if Truthy(b.min) then
      b.min.value <= x
    else if Truthy(b.max) then
      b.max.value >= x
    else
      true
  }

  /** The flags handed to the engine: the declared flags when truthy, the empty string otherwise. */
  function Flags(re: Regexp): (f: string)
    ensures f == if re.flags.Some? then re.flags.value else ""
  {
    if re.flags.Some? && re.flags.value != "" then re.flags.value else ""
  }

  /** A predicate is only applied to values of the kind its field type holds (or null). */
  predicate Fits(rule: Rule, v: Value) {
    match rule
    case SizeRule(_) => v.Str? || v.Null?
    case ProhibitRule(_) => v.Str? || v.Null?
    case RangeRule(_) => v.Num? || v.Null?
    case _ => true
  }

  /** Every rule of the list fits the value. */
  predicate RulesFit(rules: seq<Rule>, v: Value) {
    forall i | 0 <= i < |rules| :: Fits(rules[i], v)
  }

  /**
   * Runs one predicate on a value. Testing a regular expression against null
   * tests the string "null"; comparing a bound with null compares it with 0;
   * a size predicate reads the length only when it has a truthy bound, and
   * the length of null throws.
   */
  function Apply(rule: Rule, v: Value, matches: Matcher): (r: Result<bool, Fault>)
    requires Fits(rule, v)
    ensures r.Err? <==> rule.SizeRule? && v.Null? && Bounded(rule.size)
    ensures r.Err? ==> r.error == NullHasNoLength
  {
    match rule
    case UniqueRule => Ok(true)
    case SizeRule(b) =>
      if !Bounded(b) then Ok(true)
      else if v.Null? then Err(NullHasNoLength)
      else Ok(Admits(b, |v.s|))
    case ProhibitRule(re) =>
      Ok(!matches(re.pattern, Flags(re), if v.Str? then v.s else "null"))
    case RangeRule(b) =>
      Ok(Admits(b, if v.Num? then v.n else 0))
    case RequiredRule => Ok(v != Null)
  }

  /** The unique predicate accepts every value. */
  lemma UniqueAlwaysPasses(v: Value, matches: Matcher)
    ensures Apply(UniqueRule, v, matches) == Ok(true)
  {
  }

  /** The required predicate fails exactly on null; the empty string and 0 pass. */
  lemma RequiredFailsOnlyOnNull(v: Value, matches: Matcher)
    ensures Apply(RequiredRule, v, matches) == Ok(v != Null)
    ensures Apply(RequiredRule, Str(""), matches) == Ok(true)
    ensures Apply(RequiredRule, Num(0), matches) == Ok(true)
  {
  }

  /** The prohibitRegexp predicate is the negation of a match, with missing or empty flags read as "". */
  lemma ProhibitIsNegatedMatch(re: Regexp, s: string, matches: Matcher)
    ensures Apply(ProhibitRule(re), Str(s), matches)
         == Ok(!matches(re.pattern, if re.flags.Some? then re.flags.value else "", s))
  {
  }

  /** The size predicate checks a string's length; the boundary lengths pass and one step outside fails. */
  lemma SizeBoundaries(lo: int, hi: int, s: string, matches: Matcher)
    requires 0 < lo <= hi
    ensures Apply(SizeRule(Bounds(Some(lo), Some(hi))), Str(s), matches) == Ok(lo <= |s| <= hi)
    ensures |s| == lo || |s| == hi ==> Apply(SizeRule(Bounds(Some(lo), Some(hi))), Str(s), matches) == Ok(true)
    ensures |s| == lo - 1 || |s| == hi + 1 ==> Apply(SizeRule(Bounds(Some(lo), Some(hi))), Str(s), matches) == Ok(false)
  {
  }

  /**
   * On null, a size predicate throws exactly when it has a truthy bound; a
   * size object with no truthy bound (`{}`, `{min: 0}`) passes null.
   */
  lemma SizeOnNull(b: Bounds, matches: Matcher)
    ensures Bounded(b) ==> Apply(SizeRule(b), Null, matches) == Err(NullHasNoLength)
    ensures !Bounded(b) ==> Apply(SizeRule(b), Null, matches) == Ok(true)
    ensures Apply(SizeRule(Bounds(Some(0), None)), Null, matches) == Ok(true)
    ensures Apply(SizeRule(Bounds(None, Some(3))), Null, matches) == Err(NullHasNoLength)
  {
  }

  /** A bound of 0 behaves as an absent bound; `range: {min: 0, max: 5}` admits -3. */
  lemma ZeroBoundIsAbsent(b: Bounds, x: int)
    ensures Admits(Bounds(Some(0), b.max), x) == Admits(Bounds(None, b.max), x)
    ensures Admits(Bounds(b.min, Some(0)), x) == Admits(Bounds(b.min, None), x)
    ensures Admits(Bounds(Some(0), Some(5)), -3)
  {
  }

  /** On null the range predicate compares the bounds with 0, so `min: 18` rejects an empty number field. */
  lemma RangeOnNullComparesZero(b: Bounds, matches: Matcher)
    ensures Apply(RangeRule(b), Null, matches) == Ok(Admits(b, 0))
    ensures Apply(RangeRule(Bounds(Some(18), None)), Null, matches) == Ok(false)
  {
  }
}
