/** The request validator: a schema gives, per request section (body, route
    parameters, query string), rules for named fields; each field yields an
    ordered list of error messages, and a request with any error is rejected
    with status 400. The three stand-alone checks for passwords, user names
    and positive integers are modelled alongside. */
module Validator {
  import opened JsValues
  import opened JsArrays

  // ---------------------------------------------------------------------------
  // Request values

  /** A value found in a request: a primitive, an array, or some other object. */
  datatype Input = Prim(v: Value) | List(items: seq<Input>) | Obj

  /** `String(v)`: arrays join their items with commas, `null` and `undefined`
      items becoming empty. */
  function InputToString(v: Input): string
    decreases v
  {
    match v
    case Prim(p) => ValueToString(p)
    case Obj => "[object Object]"
    case List(items) =>
      Join(seq(|items|, i requires 0 <= i < |items| =>
        if items[i] == Prim(Undefined) || items[i] == Prim(Null) then "" else InputToString(items[i])), ",")
  }

  function Join(parts: seq<string>, sep: string): string
    decreases |parts|
  {
    if parts == [] then ""
    else if |parts| == 1 then parts[0]
    else parts[0] + sep + Join(parts[1..], sep)
  }

  /** `Number(v)`; `None` is NaN. An array reads as the number its string
      form denotes: an empty array is 0, an array of one item is that item
      read through its string form, and two items or more have a comma
      between them, which makes NaN. */
  function InputToNumber(v: Input): Option<int>
    decreases v
  {
    match v
    case Prim(p) => ToNumber(p)
    case Obj => None
    case List(items) =>
      if |items| == 0 then Some(0)
      else if |items| >= 2 then None
      else match items[0]
        case Prim(Undefined) => Some(0)
        case Prim(Null) => Some(0)
        case Prim(Bool(_)) => None
        case Prim(Num(n)) => Some(n)
        case Prim(Str(s)) => StringToNumber(s)
        case List(_) => InputToNumber(items[0])
        case Obj => None
  }

  /** For an array, `InputToNumber` is `Number(String(v))`. */
  lemma {:induction false} ListNumberViaString(v: Input)
    requires v.List?
    ensures InputToNumber(v) == StringToNumber(InputToString(v))
    decreases v
  {
    var items := v.items;
    var parts := seq(|items|, i requires 0 <= i < |items| =>
      if items[i] == Prim(Undefined) || items[i] == Prim(Null) then "" else InputToString(items[i]));
    assert InputToString(v) == Join(parts, ",");
    if |items| == 0 {
      TrimOfTrimmed("");
    } else if |items| >= 2 {
      var s := Join(parts, ",");
      assert s == parts[0] + "," + Join(parts[1..], ",");
      assert s[|parts[0]|] == ',';
      StringToNumberOfNonNumeral(s, |parts[0]|);
    } else {
      var x := items[0];
      assert InputToString(v) == parts[0];
      match x
      case Prim(Undefined) => TrimOfTrimmed("");
      case Prim(Null) => TrimOfTrimmed("");
      case Prim(Bool(b)) =>
        var s := if b then "true" else "false";
        assert parts[0] == s;
        StringToNumberOfNonNumeral(s, 0);
      case Prim(Num(n)) =>
        assert parts[0] == IntToString(n);
        StringToNumberOfIntToString(n);
      case Prim(Str(t)) =>
      case List(_) =>
        ListNumberViaString(x);
      case Obj =>
        var s := "[object Object]";
        assert parts[0] == s;
        StringToNumberOfNonNumeral(s, 0);
    }
  }

  predicate IsString(v: Input) { v.Prim? && v.v.Str? }

  /** `undefined`, `null` or the empty string. */
  predicate IsEmpty(v: Input) {
    v == Prim(Undefined) || v == Prim(Null) || v == Prim(Str(""))
  }

  // ---------------------------------------------------------------------------
  // The stand-alone checks

  /** Whether `s` has a character in `lo..hi` (a regular-expression class `[lo-hi]`). */
  function HasCharIn(s: string, lo: char, hi: char): (r: bool)
    ensures r <==> exists i :: 0 <= i < |s| && lo <= s[i] <= hi
  {
    if s == [] then false
    else if lo <= s[0] <= hi then true
    else
      var r := HasCharIn(s[1..], lo, hi);
      assert forall i :: 1 <= i < |s| ==> s[i] == s[1..][i - 1];
      r
  }

  /** `isStrongPassword`: eight characters or more, with an upper-case letter,
      a lower-case letter and a digit. */
  predicate IsStrongPassword(p: string) {
    |p| >= 8 && HasCharIn(p, 'A', 'Z') && HasCharIn(p, 'a', 'z') && HasCharIn(p, '0', '9')
  }

  predicate IsWordChar(c: char) {
    ('a' <= c <= 'z') || ('A' <= c <= 'Z') || ('0' <= c <= '9') || c == '_'
  }

  /** `isUsername`: 3 to 30 letters, digits and underscores. */
  predicate IsUsername(u: string) {
    3 <= |u| <= 30 && forall i :: 0 <= i < |u| ==> IsWordChar(u[i])
  }

  /** `isPositiveInteger`: a number (not a numeric string) above zero. */
  predicate IsPositiveInteger(v: Input) {
    v.Prim? && v.v.Num? && v.v.n > 0
  }

  // ---------------------------------------------------------------------------
  // Rules and the errors of one field

  datatype TypeName = TString | TNumber | TBoolean | TArray | TEmail | TDate | TUnknown

  /** The rules of one field. A missing rule is `None`; `minLength` and
      `maxLength` only take part when non-zero; `custom` answers an error
      message, the empty string standing for "no error". */
  datatype Rules = Rules(
    required: bool,
    typ: Option<TypeName>,
    minLength: Option<int>,
    maxLength: Option<int>,
    min: Option<int>,
    max: Option<int>,
    custom: Option<Input -> string>,
    enum: Option<seq<Value>>,
    pattern: Option<Input -> bool>,
    patternMessage: Option<string>)

  /** The checks that depend on regular expressions or dates: whether a value
      (as a string) looks like an e-mail address, and whether `new Date(value)`
      is a valid date. */
  datatype Checks = Checks(isEmail: Input -> bool, isDate: Input -> bool)

  /** What is wrong with a field; `Message` renders it as the text the
      middleware reports. */
  datatype Problem =
    | Required
    | NotString | NotNumber | NotBoolean | NotArray | NotEmail | NotDate
    | TooShort(minLength: int) | TooLong(maxLength: int)
    | BelowMin(min: int) | AboveMax(max: int)
    | Custom(text: string)
    | NotOneOf(values: seq<Value>)
    | BadFormat(patternMessage: Option<string>)

  datatype FieldError = FieldError(field: string, problem: Problem)

  /** `enum.join(', ')` */
  function EnumText(values: seq<Value>): string {
    Join(seq(|values|, i requires 0 <= i < |values| =>
      if values[i] == Undefined || values[i] == Null then "" else ValueToString(values[i])), ", ")
  }

  /** The `message` of a reported error. */
  function Message(e: FieldError): string {
    var f := e.field;
    match e.problem
    case Required => f + " is required"
    case NotString => f + " must be a string"
    case NotNumber => f + " must be a number"
    case NotBoolean => f + " must be a boolean"
    case NotArray => f + " must be an array"
    case NotEmail => f + " must be a valid email"
    case NotDate => f + " must be a valid date"
    case TooShort(n) => f + " must be at least " + IntToString(n) + " characters"
    case TooLong(n) => f + " must be at most " + IntToString(n) + " characters"
    case BelowMin(n) => f + " must be at least " + IntToString(n)
    case AboveMax(n) => f + " must be at most " + IntToString(n)
    case Custom(text) => text
    case NotOneOf(values) => f + " must be one of: " + EnumText(values)
    case BadFormat(pm) => if pm.Some? && pm.value != "" then pm.value else f + " format is invalid"
  }

  function ErrorIf(cond: bool, field: string, problem: Problem): (r: seq<FieldError>)
    ensures |r| <= 1 && (r != [] <==> cond)
    ensures forall i :: 0 <= i < |r| ==> r[i] == FieldError(field, problem)
  {
    if cond then [FieldError(field, problem)] else []
  }

  function TypeErrors(field: string, value: Input, t: TypeName, checks: Checks): (r: seq<FieldError>)
    ensures |r| <= 1 && forall i :: 0 <= i < |r| ==> r[i].field == field
  {
    match t
    case TString => ErrorIf(!IsString(value), field, NotString)
    case TNumber => ErrorIf(!(value.Prim? && value.v.Num?) && InputToNumber(value).None?, field, NotNumber)
    case TBoolean => ErrorIf(!(value.Prim? && value.v.Bool?), field, NotBoolean)
    case TArray => ErrorIf(!value.List?, field, NotArray)
    case TEmail => ErrorIf(!checks.isEmail(value), field, NotEmail)
    case TDate => ErrorIf(!checks.isDate(value), field, NotDate)
    case TUnknown => []
  }

  predicate Truthy(n: Option<int>) { n.Some? && n.value != 0 }

  /** `Number(value) < bound`, false when `Number(value)` is NaN. */
  predicate NumberBelow(value: Input, bound: int) {
    InputToNumber(value).Some? && InputToNumber(value).value < bound
  }

  predicate NumberAbove(value: Input, bound: int) {
    InputToNumber(value).Some? && InputToNumber(value).value > bound
  }

  /** `enum.includes(value)`: an array or object is never among the primitives. */
  predicate Includes(values: seq<Value>, value: Input) {
    value.Prim? && value.v in values
  }

  function CustomErrors(field: string, value: Input, custom: Option<Input -> string>): seq<FieldError> {
    match custom
    case Some(f) => ErrorIf(f(value) != "", field, Custom(f(value)))
    case None => []
  }

  function EnumErrors(field: string, value: Input, enum: Option<seq<Value>>): seq<FieldError> {
    match enum
    case Some(values) => ErrorIf(!Includes(values, value), field, NotOneOf(values))
    case None => []
  }

  function PatternErrors(field: string, value: Input, rules: Rules): seq<FieldError> {
    match rules.pattern
    case Some(p) => ErrorIf(!p(value), field, BadFormat(rules.patternMessage))
    case None => []
  }

  function TypeCheck(field: string, value: Input, rules: Rules, checks: Checks): seq<FieldError> {
    if rules.typ.Some? then TypeErrors(field, value, rules.typ.value, checks) else []
  }

  function MinLengthCheck(field: string, value: Input, rules: Rules): seq<FieldError> {
    ErrorIf(Truthy(rules.minLength) && IsString(value) && |value.v.s| < rules.minLength.value,
            field, TooShort(rules.minLength.GetOr(0)))
  }

  function MaxLengthCheck(field: string, value: Input, rules: Rules): seq<FieldError> {
    ErrorIf(Truthy(rules.maxLength) && IsString(value) && |value.v.s| > rules.maxLength.value,
            field, TooLong(rules.maxLength.GetOr(0)))
  }

  function MinCheck(field: string, value: Input, rules: Rules): seq<FieldError> {
    ErrorIf(rules.min.Some? && NumberBelow(value, rules.min.value), field, BelowMin(rules.min.GetOr(0)))
  }

  function MaxCheck(field: string, value: Input, rules: Rules): seq<FieldError> {
    ErrorIf(rules.max.Some? && NumberAbove(value, rules.max.value), field, AboveMax(rules.max.GetOr(0)))
  }

  function LengthErrors(field: string, value: Input, rules: Rules): seq<FieldError> {
    MinLengthCheck(field, value, rules) + MaxLengthCheck(field, value, rules)
  }

  function RangeErrors(field: string, value: Input, rules: Rules): seq<FieldError> {
    MinCheck(field, value, rules) + MaxCheck(field, value, rules)
  }

  function RuleErrors(field: string, value: Input, rules: Rules): seq<FieldError> {
    CustomErrors(field, value, rules.custom) + EnumErrors(field, value, rules.enum) + PatternErrors(field, value, rules)
  }

  /** The errors after the emptiness checks, in the order the checks run:
      type, minimum and maximum length, minimum and maximum value, custom,
      enum, pattern. */
  function CheckErrors(field: string, value: Input, rules: Rules, checks: Checks): seq<FieldError> {
    TypeCheck(field, value, rules, checks) + LengthErrors(field, value, rules)
    + RangeErrors(field, value, rules) + RuleErrors(field, value, rules)
  }

  /** What `validateField` returns. A required field that is empty gets the
      single error "is required" and nothing else is checked; an empty field
      that is not required gets no error at all. */
  function FieldErrors(field: string, value: Input, rules: Rules, checks: Checks): (r: seq<FieldError>)
    ensures rules.required && IsEmpty(value) ==> r == [FieldError(field, Required)]
    ensures !rules.required && IsEmpty(value) ==> r == []
  {
    if IsEmpty(value) then
      if rules.required then [FieldError(field, Required)] else []
    else CheckErrors(field, value, rules, checks)
  }

  /** Every error of a field names that field, and there are at most eight. */
  lemma FieldErrorsNameTheField(field: string, value: Input, rules: Rules, checks: Checks)
    ensures var r := FieldErrors(field, value, rules, checks);
            |r| <= 8 && forall i :: 0 <= i < |r| ==> r[i].field == field
  {
    if !IsEmpty(value) {
      var t := TypeCheck(field, value, rules, checks);
      var l := LengthErrors(field, value, rules);
      var g := RangeErrors(field, value, rules);
      var c := RuleErrors(field, value, rules);
      AppendSome(MinLengthCheck(field, value, rules), MaxLengthCheck(field, value, rules), field, 1, 1);
      AppendSome(MinCheck(field, value, rules), MaxCheck(field, value, rules), field, 1, 1);
      AppendSome(CustomErrors(field, value, rules.custom), EnumErrors(field, value, rules.enum), field, 1, 1);
      AppendSome(CustomErrors(field, value, rules.custom) + EnumErrors(field, value, rules.enum),
                 PatternErrors(field, value, rules), field, 2, 1);
      AppendSome(t, l, field, 1, 2);
      AppendSome(t + l, g, field, 3, 2);
      AppendSome(t + l + g, c, field, 5, 3);
    }
  }

  lemma AppendSome(a: seq<FieldError>, b: seq<FieldError>, field: string, n: nat, m: nat)
    requires |a| <= n && forall i :: 0 <= i < |a| ==> a[i].field == field
    requires |b| <= m && forall i :: 0 <= i < |b| ==> b[i].field == field
    ensures |a + b| <= n + m && forall i :: 0 <= i < |a + b| ==> (a + b)[i].field == field
  {
  }

  /** An enum error is added exactly when the rule is set and the value is not
      among its values: it is the error `NotOneOf(values)`, it comes after the
      type, length, range and custom errors and before the pattern error, and
      dropping the rule removes exactly that one error. */
  lemma EnumAddsOneError(field: string, value: Input, rules: Rules, checks: Checks)
    requires !IsEmpty(value) && rules.enum.Some?
    ensures var before := TypeCheck(field, value, rules, checks) + LengthErrors(field, value, rules)
                          + RangeErrors(field, value, rules) + CustomErrors(field, value, rules.custom);
            var after := PatternErrors(field, value, rules);
            FieldErrors(field, value, rules, checks)
              == before + (if Includes(rules.enum.value, value) then [] else [FieldError(field, NotOneOf(rules.enum.value))]) + after
            && FieldErrors(field, value, rules.(enum := None), checks) == before + after
    ensures |FieldErrors(field, value, rules, checks)|
         == |FieldErrors(field, value, rules.(enum := None), checks)| + (if Includes(rules.enum.value, value) then 0 else 1)
  {
    var open := rules.(enum := None);
    var x := TypeCheck(field, value, rules, checks) + LengthErrors(field, value, rules) + RangeErrors(field, value, rules);
    var c, e, p := CustomErrors(field, value, rules.custom), EnumErrors(field, value, rules.enum), PatternErrors(field, value, rules);
    assert x == TypeCheck(field, value, open, checks) + LengthErrors(field, value, open) + RangeErrors(field, value, open);
    assert FieldErrors(field, value, rules, checks) == x + (c + e + p);
    ConcatAssoc(x, c + e, p);
    ConcatAssoc(x, c, e);
    assert RuleErrors(field, value, open) == c + [] + p;
    assert c + [] == c;
    ConcatAssoc(x, c, p);
  }

  /** The length bounds only ever reject strings: for any other value dropping
      them changes nothing. */
  lemma LengthOnlyForStrings(field: string, value: Input, rules: Rules, checks: Checks)
    requires !IsString(value)
    ensures FieldErrors(field, value, rules, checks)
         == FieldErrors(field, value, rules.(minLength := None, maxLength := None), checks)
  {
    var unbounded := rules.(minLength := None, maxLength := None);
    assert LengthErrors(field, value, rules) == [] == LengthErrors(field, value, unbounded);
    assert TypeCheck(field, value, rules, checks) == TypeCheck(field, value, unbounded, checks);
    assert RangeErrors(field, value, rules) == RangeErrors(field, value, unbounded);
    assert RuleErrors(field, value, rules) == RuleErrors(field, value, unbounded);
  }

  /** A string shorter than a non-zero `minLength` gets the error
      `TooShort(minLength)` right after its type error, and a string that is
      long enough gets none; dropping the bound removes exactly that error. */
  lemma MinLengthAddsOneError(field: string, s: string, rules: Rules, checks: Checks)
    requires s != "" && Truthy(rules.minLength)
    ensures var value := Prim(Str(s));
            var before := TypeCheck(field, value, rules, checks);
            var after := MaxLengthCheck(field, value, rules) + RangeErrors(field, value, rules) + RuleErrors(field, value, rules);
            FieldErrors(field, value, rules, checks)
              == before + (if |s| < rules.minLength.value then [FieldError(field, TooShort(rules.minLength.value))] else []) + after
            && FieldErrors(field, value, rules.(minLength := None), checks) == before + after
    ensures |FieldErrors(field, Prim(Str(s)), rules, checks)|
         == |FieldErrors(field, Prim(Str(s)), rules.(minLength := None), checks)| + (if |s| < rules.minLength.value then 1 else 0)
  {
    var value, open := Prim(Str(s)), rules.(minLength := None);
    var t, m, x := TypeCheck(field, value, rules, checks), MinLengthCheck(field, value, rules), MaxLengthCheck(field, value, rules);
    var g, r := RangeErrors(field, value, rules), RuleErrors(field, value, rules);
    assert t == TypeCheck(field, value, open, checks) && x == MaxLengthCheck(field, value, open);
    assert g == RangeErrors(field, value, open) && r == RuleErrors(field, value, open);
    assert FieldErrors(field, value, rules, checks) == t + (m + x) + g + r;
    ConcatAssoc(t, m, x);
    ConcatAssoc(t + m, x, g);
    ConcatAssoc(t + m, x + g, r);
    assert FieldErrors(field, value, open, checks) == t + ([] + x) + g + r;
    assert [] + x == x;
    ConcatAssoc(t, x, g);
    ConcatAssoc(t, x + g, r);
  }

  /** A string longer than a non-zero `maxLength` gets the error
      `TooLong(maxLength)` right after its type and `minLength` errors, and a
      string that is short enough gets none; dropping the bound removes exactly
      that error. */
  lemma MaxLengthAddsOneError(field: string, s: string, rules: Rules, checks: Checks)
    requires s != "" && Truthy(rules.maxLength)
    ensures var value := Prim(Str(s));
            var before := TypeCheck(field, value, rules, checks) + MinLengthCheck(field, value, rules);
            var after := RangeErrors(field, value, rules) + RuleErrors(field, value, rules);
            FieldErrors(field, value, rules, checks)
              == before + (if |s| > rules.maxLength.value then [FieldError(field, TooLong(rules.maxLength.value))] else []) + after
            && FieldErrors(field, value, rules.(maxLength := None), checks) == before + after
    ensures |FieldErrors(field, Prim(Str(s)), rules, checks)|
         == |FieldErrors(field, Prim(Str(s)), rules.(maxLength := None), checks)| + (if |s| > rules.maxLength.value then 1 else 0)
  {
    var value, open := Prim(Str(s)), rules.(maxLength := None);
    var t, m, x := TypeCheck(field, value, rules, checks), MinLengthCheck(field, value, rules), MaxLengthCheck(field, value, rules);
    var g, r := RangeErrors(field, value, rules), RuleErrors(field, value, rules);
    assert t == TypeCheck(field, value, open, checks) && m == MinLengthCheck(field, value, open);
    assert g == RangeErrors(field, value, open) && r == RuleErrors(field, value, open);
    assert FieldErrors(field, value, rules, checks) == t + (m + x) + g + r;
    ConcatAssoc(t, m, x);
    ConcatAssoc(t + m + x, g, r);
    ConcatAssoc(t + m, x, g + r);
    assert FieldErrors(field, value, open, checks) == t + (m + []) + g + r;
    assert m + [] == m;
    ConcatAssoc(t + m, g, r);
  }

  /** `validateField` */
  method ValidateField(field: string, value: Input, rules: Rules, checks: Checks) returns (errors: seq<FieldError>)
    ensures errors == FieldErrors(field, value, rules, checks)
  {
    errors := [];
    if rules.required && (value == Prim(Undefined) || value == Prim(Null) || value == Prim(Str(""))) {
      errors := errors + [FieldError(field, Required)];
      return;
    }
    if value == Prim(Undefined) || value == Prim(Null) || value == Prim(Str("")) {
      return;
    }
    if rules.typ.Some? {
      var typeErrors := CheckType(field, value, rules.typ.value, checks);
      errors := errors + typeErrors;
    }
    assert errors == TypeCheck(field, value, rules, checks);
    var lengthErrors := CheckLength(field, value, rules);
    errors := errors + lengthErrors;
    var rangeErrors := CheckRange(field, value, rules);
    errors := errors + rangeErrors;
    var ruleErrors := CheckCustomEnumPattern(field, value, rules);
    errors := errors + ruleErrors;
  }

  /** The type test of `validateField`: one error when the value is not of
      the named type. */
  method CheckType(field: string, value: Input, t: TypeName, checks: Checks) returns (errors: seq<FieldError>)
    ensures errors == TypeErrors(field, value, t, checks)
  {
    errors := [];
    match t {
      case TString =>
        if !IsString(value) { errors := errors + [FieldError(field, NotString)]; }
      case TNumber =>
        if !(value.Prim? && value.v.Num?) && InputToNumber(value).None? {
          errors := errors + [FieldError(field, NotNumber)];
        }
      case TBoolean =>
        if !(value.Prim? && value.v.Bool?) { errors := errors + [FieldError(field, NotBoolean)]; }
      case TArray =>
        if !value.List? { errors := errors + [FieldError(field, NotArray)]; }
      case TEmail =>
        if !checks.isEmail(value) { errors := errors + [FieldError(field, NotEmail)]; }
      case TDate =>
        if !checks.isDate(value) { errors := errors + [FieldError(field, NotDate)]; }
      case TUnknown =>
    }
  }

  /** The length tests of `validateField`, applied to strings only. */
  method CheckLength(field: string, value: Input, rules: Rules) returns (errors: seq<FieldError>)
    ensures errors == LengthErrors(field, value, rules)
  {
    errors := [];
    if Truthy(rules.minLength) && IsString(value) && |value.v.s| < rules.minLength.value {
      errors := errors + [FieldError(field, TooShort(rules.minLength.value))];
    }
    if Truthy(rules.maxLength) && IsString(value) && |value.v.s| > rules.maxLength.value {
      errors := errors + [FieldError(field, TooLong(rules.maxLength.value))];
    }
  }

  /** The range tests of `validateField`, on the value converted to a number. */
  method CheckRange(field: string, value: Input, rules: Rules) returns (errors: seq<FieldError>)
    ensures errors == RangeErrors(field, value, rules)
  {
    errors := [];
    var n := InputToNumber(value);
    if rules.min.Some? && n.Some? && n.value < rules.min.value {
      errors := errors + [FieldError(field, BelowMin(rules.min.value))];
    }
    if rules.max.Some? && n.Some? && n.value > rules.max.value {
      errors := errors + [FieldError(field, AboveMax(rules.max.value))];
    }
  }

  /** The custom, enum and pattern tests of `validateField`. */
  method CheckCustomEnumPattern(field: string, value: Input, rules: Rules) returns (errors: seq<FieldError>)
    ensures errors == RuleErrors(field, value, rules)
  {
    errors := [];
    if rules.custom.Some? {
      var customError := rules.custom.value(value);
      if customError != "" {
        errors := errors + [FieldError(field, Custom(customError))];
      }
    }
    if rules.enum.Some? && !Includes(rules.enum.value, value) {
      errors := errors + [FieldError(field, NotOneOf(rules.enum.value))];
    }
    if rules.pattern.Some? && !rules.pattern.value(value) {
      errors := errors + [FieldError(field, BadFormat(rules.patternMessage))];
    }
  }

  // ---------------------------------------------------------------------------
  // Whole requests

  /** The fields of one request section with their rules, in the order of the
      schema's keys. */
  type Section = seq<(string, Rules)>

  datatype Schema = Schema(body: Option<Section>, params: Option<Section>, query: Option<Section>)

  datatype Request = Request(body: map<string, Input>, params: map<string, Input>, query: map<string, Input>)

  /** `ApiError(statusCode, message, errors)` */
  datatype ApiError = ApiError(statusCode: int, message: string, errors: seq<FieldError>)

  /** The middleware either calls `next()` or throws. */
  datatype Outcome = Next | Thrown(error: ApiError)

  function Lookup(values: map<string, Input>, field: string): Input {
    if field in values then values[field] else Prim(Undefined)
  }

  /** The errors of one entry of a section, its value looked up in `values`. */
  function FieldErrorsIn(values: map<string, Input>, checks: Checks): ((string, Rules)) -> seq<FieldError> {
    (e: (string, Rules)) => FieldErrors(e.0, Lookup(values, e.0), e.1, checks)
  }

  /** The errors of a section's fields, one field after the other. */
  function SectionErrors(section: Section, values: map<string, Input>, checks: Checks): seq<FieldError> {
    FlatMap(section, FieldErrorsIn(values, checks))
  }

  function OptionalSectionErrors(section: Option<Section>, values: map<string, Input>, checks: Checks): seq<FieldError> {
    if section.Some? then SectionErrors(section.value, values, checks) else []
  }

  /** All errors of a request: body fields, then parameters, then query. */
  function RequestErrors(schema: Schema, req: Request, checks: Checks): seq<FieldError> {
    OptionalSectionErrors(schema.body, req.body, checks)
    + OptionalSectionErrors(schema.params, req.params, checks)
    + OptionalSectionErrors(schema.query, req.query, checks)
  }

  /** Field errors come in the order of the fields. */
  lemma SectionErrorsConcat(a: Section, b: Section, values: map<string, Input>, checks: Checks)
    ensures SectionErrors(a + b, values, checks) == SectionErrors(a, values, checks) + SectionErrors(b, values, checks)
  {
    FlatMapConcat(a, b, FieldErrorsIn(values, checks));
  }

  /** A section has no error exactly when none of its fields has one. */
  lemma SectionErrorsEmpty(section: Section, values: map<string, Input>, checks: Checks)
    ensures SectionErrors(section, values, checks) == []
        <==> forall i :: 0 <= i < |section| ==> FieldErrors(section[i].0, Lookup(values, section[i].0), section[i].1, checks) == []
  {
    FlatMapEmpty(section, FieldErrorsIn(values, checks));
  }

  /** The outcome of the middleware that `validate(schema)` returns. */
  method Validate(schema: Schema, req: Request, checks: Checks) returns (outcome: Outcome)
    ensures outcome == if RequestErrors(schema, req, checks) == [] then Next
                       else Thrown(ApiError(400, "Validation failed", RequestErrors(schema, req, checks)))
  {
    var bodyErrors := ValidateOptionalSection(schema.body, req.body, checks);
    var paramsErrors := ValidateOptionalSection(schema.params, req.params, checks);
    var queryErrors := ValidateOptionalSection(schema.query, req.query, checks);
    var errors := bodyErrors + paramsErrors + queryErrors;
    if |errors| > 0 {
      return Thrown(ApiError(400, "Validation failed", errors));
    }
    return Next;
  }

  /** A section the schema has is validated; one it lacks adds nothing. */
  method ValidateOptionalSection(section: Option<Section>, values: map<string, Input>, checks: Checks)
    returns (errors: seq<FieldError>)
    ensures errors == OptionalSectionErrors(section, values, checks)
  {
    errors := [];
    if section.Some? {
      errors := ValidateSection(section.value, values, checks);
    }
  }

  /** The loop of `validate` over one section's fields. */
  method ValidateSection(section: Section, values: map<string, Input>, checks: Checks) returns (errors: seq<FieldError>)
    ensures errors == SectionErrors(section, values, checks)
  {
    errors := [];
    for i := 0 to |section|
      invariant errors == SectionErrors(section[..i], values, checks)
    {
      var (field, rules) := section[i];
      var value := Lookup(values, field);
      var fieldErrors := ValidateField(field, value, rules, checks);
      assert section[..i + 1][..i] == section[..i];
      errors := errors + fieldErrors;
    }
    assert section[..|section|] == section;
  }

  // ---------------------------------------------------------------------------
  // The schemas of the application

  /** `/^[a-zA-Z0-9_]+$/.test(value)` */
  predicate WordPattern(v: Input) {
    var s := InputToString(v);
    |s| >= 1 && forall i :: 0 <= i < |s| ==> IsWordChar(s[i])
  }

  const PasswordAdvice := "Password must contain at least one uppercase letter, one lowercase letter, and one number"

  /** `isStrongPassword(value)` for any value: `length` and the character tests
      of an array read its item count and its string form; other non-strings
      have no length. */
  predicate StrongPasswordValue(v: Input) {
    match v
    case Prim(Str(s)) => IsStrongPassword(s)
    case List(items) =>
      var s := InputToString(v);
      |items| >= 8 && HasCharIn(s, 'A', 'Z') && HasCharIn(s, 'a', 'z') && HasCharIn(s, '0', '9')
    case _ => false
  }

  function NoRules(): Rules {
    Rules(false, None, None, None, None, None, None, None, None, None)
  }

  function RegisterUsername(): Rules {
    NoRules().(required := true, typ := Some(TString), minLength := Some(3), maxLength := Some(30),
               pattern := Some(WordPattern),
               patternMessage := Some("Username can only contain letters, numbers, and underscores"))
  }

  function RegisterPassword(): Rules {
    NoRules().(required := true, typ := Some(TString), minLength := Some(8),
               custom := Some((v: Input) => if StrongPasswordValue(v) then "" else PasswordAdvice))
  }

  function FocusDuration(): Rules {
    NoRules().(required := true, typ := Some(TNumber), min := Some(1), max := Some(180))
  }

  function Register(): Schema {
    Schema(Some([("email", NoRules().(required := true, typ := Some(TEmail))),
                 ("username", RegisterUsername()),
                 ("password", RegisterPassword())]), None, None)
  }

  function Login(): Schema {
    Schema(Some([("email", NoRules().(required := true, typ := Some(TString))),
                 ("password", NoRules().(required := true, typ := Some(TString)))]), None, None)
  }

  function FocusSession(): Schema {
    Schema(Some([("task", NoRules().(typ := Some(TString), maxLength := Some(200))),
                 ("duration", FocusDuration())]), None, None)
  }

  function DailyGoal(): Schema {
    Schema(Some([("title", NoRules().(required := true, typ := Some(TString), minLength := Some(1), maxLength := Some(200))),
                 ("description", NoRules().(typ := Some(TString), maxLength := Some(1000))),
                 ("targetDate", NoRules().(required := true, typ := Some(TDate))),
                 ("priority", NoRules().(typ := Some(TString), enum := Some([Str("low"), Str("medium"), Str("high")]))),
                 ("category", NoRules().(typ := Some(TString), maxLength := Some(50)))]), None, None)
  }

  /** The user-name rules of registration accept a string exactly when
      `isUsername` holds for it. */
  lemma RegisterUsernameIsUsername(s: string, checks: Checks)
    ensures FieldErrors("username", Prim(Str(s)), RegisterUsername(), checks) == [] <==> IsUsername(s)
  {
    if s != "" {
      assert InputToString(Prim(Str(s))) == s;
    }
  }

  /** The password rules of registration accept a string exactly when
      `isStrongPassword` holds for it. */
  lemma RegisterPasswordIsStrong(p: string, checks: Checks)
    ensures FieldErrors("password", Prim(Str(p)), RegisterPassword(), checks) == [] <==> IsStrongPassword(p)
  {
  }

  /** The duration rules of a focus session accept a number exactly when it is
      a positive integer of at most 180. */
  lemma FocusDurationIsPositive(n: int, checks: Checks)
    ensures FieldErrors("duration", Prim(Num(n)), FocusDuration(), checks) == []
        <==> IsPositiveInteger(Prim(Num(n))) && n <= 180
  {
  }

  /** The duration rules look at a present value only through its number:
      two values with the same number get the same errors. */
  lemma FocusDurationByNumber(a: Input, b: Input, checks: Checks)
    requires !IsEmpty(a) && !IsEmpty(b)
    requires InputToNumber(a).Some? && InputToNumber(a) == InputToNumber(b)
    ensures FieldErrors("duration", a, FocusDuration(), checks) == FieldErrors("duration", b, FocusDuration(), checks)
  {
    var rules := FocusDuration();
    assert TypeCheck("duration", a, rules, checks) == [] == TypeCheck("duration", b, rules, checks);
    assert LengthErrors("duration", a, rules) == [] == LengthErrors("duration", b, rules);
    assert RangeErrors("duration", a, rules) == RangeErrors("duration", b, rules);
    assert RuleErrors("duration", a, rules) == [] == RuleErrors("duration", b, rules);
  }

  /** A string that `Number` reads as `n` (such as `IntToString(n)`, by
      `StringToNumberOfIntToString`) is checked like the number itself. */
  lemma FocusDurationAcceptsNumerals(s: string, n: int, checks: Checks)
    requires s != "" && StringToNumber(s) == Some(n)
    ensures FieldErrors("duration", Prim(Str(s)), FocusDuration(), checks)
         == FieldErrors("duration", Prim(Num(n)), FocusDuration(), checks)
  {
    FocusDurationByNumber(Prim(Str(s)), Prim(Num(n)), checks);
  }
}
