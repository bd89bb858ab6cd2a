/**
 * The content-type schema and the entry values the validator reads from the
 * host: field definitions with their validation declarations, and the
 * current value of every field.
 */
module Schema {
  import opened Wrappers

  /** The `{min, max}` object of a `size` or `range` declaration; an absent key is `None`. */
  datatype Bounds = Bounds(min: Option<int>, max: Option<int>)

  /** The `{pattern, flags}` object of a `prohibitRegexp` declaration. */
  datatype Regexp = Regexp(pattern: string, flags: Option<string>)

  /**
   * One validation declaration of a field. Each component says whether the
   * declaration object owns that key and, if so, its configuration; the
   * compiler never reads any other key, so other keys are not represented.
   */
  datatype Declaration = Declaration(
    unique: bool,
    size: Option<Bounds>,
    prohibitRegexp: Option<Regexp>,
    range: Option<Bounds>)

  /** A field of the content type: its id, its type tag, whether it is required, and its declarations in order. */
  datatype FieldDef = FieldDef(id: string, fieldType: string, required: bool, validations: seq<Declaration>)

  /** The current value of an entry field. Numbers are modelled as integers. */
  datatype Value = Str(s: string) | Num(n: int) | Null

  /** The entry as the host exposes it: field id to current value. */
  type Entry = map<string, Value>

  /** Type tags whose declarations are read with the string rule table. */
  predicate IsStringType(t: string) {
    t == "Symbol" || t == "Text"
  }

  /** Type tags whose declarations are read with the number rule table. */
  predicate IsNumberType(t: string) {
    t == "Integer" || t == "Float"
  }

  /** The host keeps a string field's value a string or null, and a number field's value a number or null. */
  predicate ValueFits(t: string, v: Value) {
    if IsStringType(t) then v.Str? || v.Null?
    else if IsNumberType(t) then v.Num? || v.Null?
    else true
  }

  /** Every value the entry holds for a field of the content type fits that field's type. */
  predicate EntryFits(fields: seq<FieldDef>, entry: Entry) {
    forall i | 0 <= i < |fields| && fields[i].id in entry :: ValueFits(fields[i].fieldType, entry[fields[i].id])
  }

  /** No two fields of the content type share an id. */
  predicate DistinctIds(fields: seq<FieldDef>) {
    forall i, j | 0 <= i < j < |fields| :: fields[i].id != fields[j].id
  }
}
