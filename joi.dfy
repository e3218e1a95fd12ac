/**
 * The part of joi's object and string validation the schemas use, with
 * conversion on (joi's default): a string is first lower-cased (if the rule
 * says `lowercase()`), then trimmed (if it says `trim()`); the converted value
 * must be non-empty (`joi.string()` refuses ""), at most `max` UTF-16 code
 * units long (JavaScript's string length), and pass
 * the e-mail check if asked. A missing key fails only a `required()` rule; a
 * non-string value always fails; a key the schema does not declare fails the
 * whole object. The first failure, in schema order, is reported.
 */
module Joi {

  import opened Wrappers
  import Text

  /** A JSON value in a request body: a string, or anything else. */
  datatype Value = Str(s: string) | NonString

  /** A request body: its keys and their values. */
  type Body = map<string, Value>

  /** One key of an object schema with its string rules. */
  datatype Rule = Rule(key: string, required: bool, lowercase: bool, trim: bool, maxLength: Option<nat>, email: bool)

  /** The outcome of validation: the converted value, or the detail of the first failure. */
  datatype Validated<+T> = Valid(value: T) | Invalid(detail: string)

  /** The detail reported for a key the schema does not declare. */
  const UnknownKey := "object.unknown"

  /** The value at `key`, if the body has one. */
  function Lookup(body: Body, key: string): Option<Value> {
    if key in body then Some(body[key]) else None
  }

  /** joi's conversion of a string under a rule: lower-case first, then trim. */
  function Convert(rule: Rule, s: string): string {
    var lowered := if rule.lowercase then Text.Lower(s) else s;
    if rule.trim then Text.Trim(lowered) else lowered
  }

  /** A converted string a rule lets through: non-empty, within `max` code units, and an e-mail address if asked. */
  predicate Accepted(rule: Rule, c: string, isEmail: string -> bool) {
    c != "" && (rule.maxLength.None? || Text.Utf16Length(c) <= rule.maxLength.value) && (!rule.email || isEmail(c))
  }

  /** Validation of one key: `Valid(None)` for an allowed absence, `Valid(Some(v))` for the converted string. */
  function CheckField(rule: Rule, v: Option<Value>, isEmail: string -> bool): (r: Validated<Option<string>>)
    ensures v.None? ==> (r.Valid? <==> !rule.required)
    ensures v == Some(NonString) ==> r.Invalid?
    ensures r.Valid? && v.Some? ==> r.value == Some(Convert(rule, v.value.s))
    ensures v.Some? && v.value.Str? ==> (r.Valid? <==> Accepted(rule, Convert(rule, v.value.s), isEmail))
    ensures r.Invalid? ==> r.detail == rule.key
  {
    match v
    case None => if rule.required then Invalid(rule.key) else Valid(None)
    case Some(NonString) => Invalid(rule.key)
    case Some(Str(s)) =>
      var c := Convert(rule, s);
      if c == "" then Invalid(rule.key)
      else if rule.maxLength.Some? && Text.Utf16Length(c) > rule.maxLength.value then Invalid(rule.key)
      else if rule.email && !isEmail(c) then Invalid(rule.key)
      else Valid(Some(c))
  }

  /** `rule` accepts what the body holds at its key. */
  predicate FieldValid(body: Body, rule: Rule, isEmail: string -> bool) {
    CheckField(rule, Lookup(body, rule.key), isEmail).Valid?
  }

  /** A required rule accepts exactly a string whose converted form it lets through. */
  lemma RequiredField(body: Body, rule: Rule, isEmail: string -> bool)
    requires rule.required
    ensures FieldValid(body, rule, isEmail) <==>
      HasString(body, rule.key) && Accepted(rule, Convert(rule, body[rule.key].s), isEmail)
  {
  }

  /** An optional rule accepts an absent key, or a string whose converted form it lets through. */
  lemma OptionalField(body: Body, rule: Rule, isEmail: string -> bool)
    requires !rule.required
    ensures FieldValid(body, rule, isEmail) <==>
      (rule.key in body ==> body[rule.key].Str? && Accepted(rule, Convert(rule, body[rule.key].s), isEmail))
  {
  }

  /** An accepted absent key stays absent from the validated map. */
  lemma RecordedAbsence(m: map<string, string>, body: Body, rule: Rule, isEmail: string -> bool)
    requires Recorded(m, body, rule, isEmail) && FieldValid(body, rule, isEmail) && rule.key !in body
    ensures rule.key !in m
  {
  }

  /** An accepted string is recorded in its converted form. */
  lemma RecordedString(m: map<string, string>, body: Body, rule: Rule, isEmail: string -> bool)
    requires Recorded(m, body, rule, isEmail) && FieldValid(body, rule, isEmail) && HasString(body, rule.key)
    ensures rule.key in m && m[rule.key] == Convert(rule, body[rule.key].s)
  {
  }

  /** The validated map holds the converted value of `rule`'s key exactly when the body supplied one. */
  predicate Recorded(m: map<string, string>, body: Body, rule: Rule, isEmail: string -> bool) {
    var f := CheckField(rule, Lookup(body, rule.key), isEmail);
    f.Valid? ==> (rule.key in m <==> f.value.Some?) && (f.value.Some? ==> m[rule.key] == f.value.value)
  }

  /** `key` is one the schema declares. */
  predicate Declared(schema: seq<Rule>, key: string) {
    exists i :: 0 <= i < |schema| && schema[i].key == key
  }

  /** Every key of the body is declared by the schema. */
  predicate OnlyDeclared(body: Body, schema: seq<Rule>) {
    forall k :: k in body.Keys ==> Declared(schema, k)
  }

  /** No key is declared twice. */
  predicate DistinctKeys(schema: seq<Rule>) {
    forall i, j :: 0 <= i < j < |schema| ==> schema[i].key != schema[j].key
  }

  /** Validation of the keys `schema[from..]`, stopping at the first failure. */
  function Fields(body: Body, schema: seq<Rule>, isEmail: string -> bool, from: nat): (r: Validated<map<string, string>>)
    requires from <= |schema| && DistinctKeys(schema)
    ensures r.Valid? <==> forall i :: from <= i < |schema| ==> FieldValid(body, schema[i], isEmail)
    ensures r.Valid? ==> forall i :: from <= i < |schema| ==> Recorded(r.value, body, schema[i], isEmail)
    ensures r.Valid? ==> forall k :: k in r.value ==> exists i :: from <= i < |schema| && schema[i].key == k
    decreases |schema| - from
  {
    if from == |schema| then Valid(map[])
    else
      match CheckField(schema[from], Lookup(body, schema[from].key), isEmail)
      case Invalid(d) => Invalid(d)
      case Valid(v) =>
        match Fields(body, schema, isEmail, from + 1)
        case Invalid(d) => Invalid(d)
        case Valid(m) =>
          var m' := if v.Some? then m[schema[from].key := v.value] else m;
          assert forall i :: from < i < |schema| ==> Recorded(m', body, schema[i], isEmail) by {
            forall i | from < i < |schema| ensures Recorded(m', body, schema[i], isEmail) {
              assert schema[i].key != schema[from].key;
              assert Recorded(m, body, schema[i], isEmail);
            }
          }
          assert schema[from].key !in m;
          assert Recorded(m', body, schema[from], isEmail);
          assert forall k :: k in m' ==> exists i :: from <= i < |schema| && schema[i].key == k;
          Valid(m')
  }

  /** `schema.validateAsync(body)`: every declared key valid and no undeclared key. */
  function Validate(body: Body, schema: seq<Rule>, isEmail: string -> bool): (r: Validated<map<string, string>>)
    requires DistinctKeys(schema)
    ensures r.Valid? <==>
      (forall i :: 0 <= i < |schema| ==> FieldValid(body, schema[i], isEmail)) && OnlyDeclared(body, schema)
    ensures r.Valid? ==> forall i :: 0 <= i < |schema| ==> Recorded(r.value, body, schema[i], isEmail)
  {
    match Fields(body, schema, isEmail, 0)
    case Invalid(d) => Invalid(d)
    case Valid(m) => if OnlyDeclared(body, schema) then Valid(m) else Invalid(UnknownKey)
  }

  /** A required rule with the given conversions and no length or e-mail check. */
  function Required(key: string, lowercase: bool, trim: bool): Rule {
    Rule(key, true, lowercase, trim, None, false)
  }

  /** A string the body holds at `key`. */
  predicate HasString(body: Body, key: string) {
    key in body && body[key].Str?
  }
}
