/** JavaScript primitive values and the coercions that the record store and the
    request validator rely on: `Number(...)` on strings, loose equality `==`, the
    relational operators, `toLowerCase`, `trim` and the decimal rendering of a
    number inside a template string. Numbers are integers throughout. */
module JsValues {

  datatype Option<T> = None | Some(value: T) {
    function GetOr(default: T): T {
      match this
      case Some(v) => v
      case None => default
    }
  }

  /** A primitive as it can appear in a stored record or a parameter list.
      `Undefined` also stands for a field a record does not have. */
  datatype Value = Undefined | Null | Bool(b: bool) | Num(n: int) | Str(s: string)

  // ---------------------------------------------------------------------------
  // Characters and strings

  /** WhiteSpace and LineTerminator of ECMAScript: what `trim` removes and what
      the regular-expression class `\s` matches. */
  predicate IsWhiteSpace(c: char) {
    c == '\t' || c == '\n' || c == '\U{B}' || c == '\U{C}' || c == '\r' || c == ' '
    || c == '\U{A0}' || c == '\U{1680}' || ('\U{2000}' <= c <= '\U{200A}')
    || c == '\U{2028}' || c == '\U{2029}' || c == '\U{202F}' || c == '\U{205F}'
    || c == '\U{3000}' || c == '\U{FEFF}'
  }

  predicate IsDigit(c: char) { '0' <= c <= '9' }

  predicate AllDigits(s: string) {
    forall i :: 0 <= i < |s| ==> IsDigit(s[i])
  }

  /** `String.prototype.trimStart`: a suffix of the input that does not start with white space. */
  function TrimStart(s: string): (r: string)
    ensures |r| <= |s| && r == s[|s| - |r|..]
    ensures r == [] || !IsWhiteSpace(r[0])
  {
    if s != [] && IsWhiteSpace(s[0]) then TrimStart(s[1..]) else s
  }

  /** `String.prototype.trimEnd`: a prefix of the input that does not end with white space. */
  function TrimEnd(s: string): (r: string)
    ensures |r| <= |s| && r == s[..|r|]
    ensures r == [] || !IsWhiteSpace(r[|r| - 1])
  {
    if s != [] && IsWhiteSpace(s[|s| - 1]) then
      var r := TrimEnd(s[..|s| - 1]);
      assert r == s[..|r|];
      r
    else s
  }

  /** `String.prototype.trim`: the input without its leading and trailing white space. */
  function Trim(s: string): (r: string)
    ensures r == [] || (!IsWhiteSpace(r[0]) && !IsWhiteSpace(r[|r| - 1]))
    ensures |r| <= |s|
  {
    TrimEnd(TrimStart(s))
  }

  /** `trimStart` removes white space only. */
  lemma {:induction false} TrimStartRemovesWhiteSpace(s: string)
    ensures forall i :: 0 <= i < |s| - |TrimStart(s)| ==> IsWhiteSpace(s[i])
  {
    if s != [] && IsWhiteSpace(s[0]) {
      TrimStartRemovesWhiteSpace(s[1..]);
      assert forall i :: 1 <= i < |s| ==> s[i] == s[1..][i - 1];
    }
  }

  /** `trimEnd` removes white space only. */
  lemma {:induction false} TrimEndRemovesWhiteSpace(s: string)
    ensures forall i :: |TrimEnd(s)| <= i < |s| ==> IsWhiteSpace(s[i])
  {
    if s != [] && IsWhiteSpace(s[|s| - 1]) {
      TrimEndRemovesWhiteSpace(s[..|s| - 1]);
    }
  }

  /** `trim` cuts a contiguous piece out of its input: the characters it keeps
      are those of the input from the first non-white-space one on. */
  lemma {:induction false} TrimIsInfix(s: string)
    ensures |s| - |TrimStart(s)| + |Trim(s)| <= |s|
    ensures Trim(s) == s[|s| - |TrimStart(s)|..|s| - |TrimStart(s)| + |Trim(s)|]
  {
    assert Trim(s) == s[|s| - |TrimStart(s)|..][..|Trim(s)|];
    SliceOfSlice(s, |s| - |TrimStart(s)|, |Trim(s)|);
  }

  lemma SliceOfSlice<T>(s: seq<T>, k: nat, m: nat)
    requires k + m <= |s|
    ensures s[k..][..m] == s[k..k + m]
  {
  }

  /** A character that is neither white space, a digit nor a sign survives
      trimming and makes `Number` NaN. */
  lemma {:induction false} StringToNumberOfNonNumeral(s: string, i: nat)
    requires i < |s| && !IsWhiteSpace(s[i]) && !IsDigit(s[i]) && s[i] != '-' && s[i] != '+'
    ensures StringToNumber(s) == None
  {
    var k := |s| - |TrimStart(s)|;
    TrimStartRemovesWhiteSpace(s);
    TrimEndRemovesWhiteSpace(TrimStart(s));
    TrimIsInfix(s);
    var r := Trim(s);
    assert k <= i;
    assert TrimStart(s)[i - k] == s[i];
    assert i - k < |r|;
    assert r[i - k] == s[i];
    if r[0] == '-' || r[0] == '+' {
      assert r[1..][i - k - 1] == s[i];
    }
  }

  /** A string that neither starts nor ends with white space is its own trim. */
  lemma {:induction false} TrimOfTrimmed(s: string)
    requires s == [] || (!IsWhiteSpace(s[0]) && !IsWhiteSpace(s[|s| - 1]))
    ensures Trim(s) == s
  {
    assert TrimStart(s) == s;
    assert TrimEnd(s) == s;
  }

  /** `toLowerCase` restricted to the ASCII letters. */
  function LowerChar(c: char): (r: char)
    ensures 'A' <= c <= 'Z' ==> 'a' <= r <= 'z' && r as int - c as int == 32
    ensures !('A' <= c <= 'Z') ==> r == c
  {
    if 'A' <= c <= 'Z' then (c as int + 32) as char else c
  }

  function ToLower(s: string): (r: string)
    ensures |r| == |s| && forall i :: 0 <= i < |s| ==> r[i] == LowerChar(s[i])
  {
    seq(|s|, i requires 0 <= i < |s| => LowerChar(s[i]))
  }

  /** String comparison of `<`: lexicographic by character. */
  predicate StrLess(s: string, t: string)
    decreases |s|
  {
    if s == [] then t != []
    else if t == [] then false
    else if s[0] != t[0] then s[0] < t[0]
    else StrLess(s[1..], t[1..])
  }

  lemma {:induction false} StrLessIrreflexive(s: string)
    ensures !StrLess(s, s)
    decreases |s|
  {
    if s != [] { StrLessIrreflexive(s[1..]); }
  }

  lemma {:induction false} StrLessTransitive(s: string, t: string, u: string)
    requires StrLess(s, t) && StrLess(t, u)
    ensures StrLess(s, u)
    decreases |s|
  {
    if s != [] && t != [] && u != [] && s[0] == t[0] && t[0] == u[0] {
      StrLessTransitive(s[1..], t[1..], u[1..]);
    }
  }

  // ---------------------------------------------------------------------------
  // Numbers rendered in and read from decimal

  function DigitChar(d: nat): (c: char)
    requires d < 10
    ensures IsDigit(c) && c as int - '0' as int == d
  {
    ('0' as int + d) as char
  }

  /** The decimal digits of `n`, without leading zeros. */
  function NatToString(n: nat): (r: string)
    ensures |r| >= 1 && AllDigits(r)
    ensures (r[0] == '0') == (n == 0)
  {
    if n < 10 then [DigitChar(n)] else NatToString(n / 10) + [DigitChar(n % 10)]
  }

  /** How a number is written in a template string such as `${n}s`. */
  function IntToString(i: int): (r: string)
    ensures |r| >= 1
  {
    if i < 0 then "-" + NatToString(-i) else NatToString(i)
  }

  /** The number a string of decimal digits denotes. */
  function DigitsValue(s: string): nat
    requires AllDigits(s)
  {
    if s == [] then 0 else DigitsValue(s[..|s| - 1]) * 10 + (s[|s| - 1] as int - '0' as int)
  }

  lemma {:induction false} DigitsValueOfNatToString(n: nat)
    ensures DigitsValue(NatToString(n)) == n
  {
    if n >= 10 {
      var r := NatToString(n);
      DigitsValueOfNatToString(n / 10);
      assert r[..|r| - 1] == NatToString(n / 10);
    }
  }

  /** `Number(s)` for a string: after trimming, the empty string is 0 and an
      optionally signed run of decimal digits is its value; everything else is
      NaN (`None`). Fractions, exponents, `Infinity` and `0x`/`0o`/`0b` forms are
      outside the model and read as NaN. */
  function StringToNumber(s: string): Option<int> {
    NumberLiteral(Trim(s))
  }

  /** The numeric literal grammar of `Number(s)` on an already trimmed string. */
  function NumberLiteral(t: string): Option<int> {
    if t == [] then Some(0)
    else if t[0] == '-' then Negate(DigitRun(t[1..]))
    else if t[0] == '+' then DigitRun(t[1..])
    else DigitRun(t)
  }

  /** A non-empty run of decimal digits. */
  function DigitRun(u: string): Option<int> {
    if |u| >= 1 && AllDigits(u) then Some(DigitsValue(u)) else None
  }

  function Negate(n: Option<int>): Option<int> {
    match n
    case Some(x) => Some(0 - x)
    case None => None
  }

  /** On a string without surrounding white space `Number` is the literal grammar alone. */
  lemma StringToNumberOfTrimmed(s: string)
    requires s == [] || (!IsWhiteSpace(s[0]) && !IsWhiteSpace(s[|s| - 1]))
    ensures StringToNumber(s) == NumberLiteral(s)
  {
    TrimOfTrimmed(s);
  }

  /** A run of digits reads as its value. */
  lemma StringToNumberOfDigits(d: string)
    requires |d| >= 1 && AllDigits(d)
    ensures StringToNumber(d) == Some(DigitsValue(d))
  {
    assert IsDigit(d[0]) && IsDigit(d[|d| - 1]);
    StringToNumberOfTrimmed(d);
  }

  /** A minus sign followed by a run of digits reads as the negated value. */
  lemma StringToNumberOfNegatedDigits(d: string, m: string, v: nat)
    requires |d| >= 1 && AllDigits(d) && m == ['-'] + d && v == DigitsValue(d)
    ensures StringToNumber(m) == Some(0 - v)
  {
    assert m[1..] == d;
    assert DigitRun(d) == Some(v);
    assert m[0] == '-';
    assert NumberLiteral(m) == Negate(DigitRun(d));
    assert IsDigit(d[|d| - 1]) && m[|m| - 1] == d[|d| - 1];
    StringToNumberOfTrimmed(m);
  }

  lemma StringToNumberOfNatToString(n: nat)
    ensures StringToNumber(NatToString(n)) == Some(n)
  {
    StringToNumberOfDigits(NatToString(n));
    DigitsValueOfNatToString(n);
  }

  lemma StringToNumberOfNegative(n: nat, r: string)
    requires n > 0 && r == IntToString(0 - n)
    ensures StringToNumber(r) == Some(0 - n)
  {
    var d := NatToString(n);
    DigitsValueOfNatToString(n);
    assert r == ['-'] + d;
    StringToNumberOfNegatedDigits(d, r, n);
  }

  /** Reading back a rendered number gives the number, so `5 == "5"` holds. */
  lemma StringToNumberOfIntToString(i: int)
    ensures StringToNumber(IntToString(i)) == Some(i)
  {
    if i < 0 {
      StringToNumberOfNegative(0 - i, IntToString(i));
    } else {
      StringToNumberOfNatToString(i);
    }
  }

  /** Rendering a number is injective. */
  lemma IntToStringInjective(i: int, j: int)
    requires IntToString(i) == IntToString(j)
    ensures i == j
  {
    StringToNumberOfIntToString(i);
    StringToNumberOfIntToString(j);
  }

  // ---------------------------------------------------------------------------
  // Coercions and comparisons

  /** `Number(v)`; `None` is NaN. */
  function ToNumber(v: Value): Option<int> {
    match v
    case Undefined => None
    case Null => Some(0)
    case Bool(b) => Some(if b then 1 else 0)
    case Num(n) => Some(n)
    case Str(s) => StringToNumber(s)
  }

  /** `String(v)` */
  function ValueToString(v: Value): string {
    match v
    case Undefined => "undefined"
    case Null => "null"
    case Bool(b) => if b then "true" else "false"
    case Num(n) => IntToString(n)
    case Str(s) => s
  }

  /** Loose equality `a == b` (IsLooselyEqual of ECMAScript): values of one type
      compare by value, `null` and `undefined` equal each other and nothing
      else, a number meets a string through `Number(string)`, and a boolean is
      first turned into 0 or 1. */
  predicate LooseEq(a: Value, b: Value) {
    match (a, b)
    case (Undefined, Undefined) => true
    case (Null, Null) => true
    case (Undefined, Null) => true
    case (Null, Undefined) => true
    case (Num(x), Num(y)) => x == y
    case (Str(x), Str(y)) => x == y
    case (Bool(x), Bool(y)) => x == y
    case (Num(x), Str(y)) => StringToNumber(y) == Some(x)
    case (Str(x), Num(y)) => StringToNumber(x) == Some(y)
    case (Bool(x), Num(y)) => (if x then 1 else 0) == y
    case (Bool(x), Str(y)) => StringToNumber(y) == Some(if x then 1 else 0)
    case (Num(x), Bool(y)) => x == (if y then 1 else 0)
    case (Str(x), Bool(y)) => StringToNumber(x) == Some(if y then 1 else 0)
    case _ => false
  }

  lemma LooseEqSymmetric(a: Value, b: Value)
    ensures LooseEq(a, b) == LooseEq(b, a)
  {
  }

  /** On two values of the same type loose equality is plain equality. */
  lemma LooseEqSameType(a: Value, b: Value)
    requires (a.Num? && b.Num?) || (a.Str? && b.Str?) || (a.Bool? && b.Bool?)
    ensures LooseEq(a, b) <==> a == b
  {
  }

  /** A number equals its own decimal rendering loosely. */
  lemma LooseEqNumberAndItsString(n: int)
    ensures LooseEq(Num(n), Str(IntToString(n)))
  {
    StringToNumberOfIntToString(n);
  }

  /** IsLessThan of ECMAScript: two strings compare lexicographically, anything
      else compares as numbers; `None` is the "undefined" answer that a NaN
      operand produces. */
  function LessThan(a: Value, b: Value): Option<bool> {
    if a.Str? && b.Str? then Some(StrLess(a.s, b.s))
    else match (ToNumber(a), ToNumber(b))
      case (Some(x), Some(y)) => Some(x < y)
      case _ => None
  }

  /** `a < b` */
  predicate Less(a: Value, b: Value) { LessThan(a, b) == Some(true) }

  /** `a > b` */
  predicate Greater(a: Value, b: Value) { LessThan(b, a) == Some(true) }

  /** `a <= b` */
  predicate LessEq(a: Value, b: Value) { LessThan(b, a) == Some(false) }

  /** `a >= b` */
  predicate GreaterEq(a: Value, b: Value) { LessThan(a, b) == Some(false) }

  /** On numbers the operators are the arithmetic ones. */
  lemma ComparisonsOnNumbers(x: int, y: int)
    ensures Less(Num(x), Num(y)) <==> x < y
    ensures Greater(Num(x), Num(y)) <==> x > y
    ensures LessEq(Num(x), Num(y)) <==> x <= y
    ensures GreaterEq(Num(x), Num(y)) <==> x >= y
  {
  }

  /** `undefined` (a missing field) is never ordered against anything. */
  lemma UndefinedIncomparable(v: Value)
    ensures !Less(Undefined, v) && !Greater(Undefined, v) && !LessEq(Undefined, v) && !GreaterEq(Undefined, v)
    ensures !Less(v, Undefined) && !Greater(v, Undefined) && !LessEq(v, Undefined) && !GreaterEq(v, Undefined)
  {
  }
}
