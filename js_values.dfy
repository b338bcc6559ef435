/**
 * The slice of JavaScript's runtime values that the services handle: what
 * JSON.parse can produce, plus `undefined` for a missing property.  The
 * services treat parsed LLM output as `any`, so the model keeps the value
 * untyped and reproduces the language rules the code leans on: truthiness,
 * property reads (a TypeError on null and undefined), String(), trim().
 */
module JsValues {
  import opened Wrappers

  /** JSON numbers are modelled as integers (see README, "Left out"). */
  datatype JsValue =
    | Undefined
    | Null
    | Bool(b: bool)
    | Number(n: int)
    | Str(s: string)
    | Arr(items: seq<JsValue>)
    | Obj(fields: map<string, JsValue>)

  /** `!!v` */
  predicate Truthy(v: JsValue)
  {
    match v
    case Undefined => false
    case Null => false
    case Bool(b) => b
    case Number(n) => n != 0
    case Str(s) => s != ""
    case Arr(_) => true
    case Obj(_) => true
  }

  predicate Nullish(v: JsValue)
  {
    v.Undefined? || v.Null?
  }

  /** The message of the TypeError that a property read on null or undefined raises. */
  function ReadErrorMessage(v: JsValue, key: string): string
    requires Nullish(v)
  {
    "Cannot read properties of " + (if v.Null? then "null" else "undefined") + " (reading '" + key + "')"
  }

  /**
   * `v.key` for the property names the services use (none of them is a
   * property of strings, numbers, booleans or arrays, which therefore read
   * as undefined).
   */
  function Get(v: JsValue, key: string): (r: Result<JsValue>)
    ensures r.Err? <==> Nullish(v)
    ensures v.Obj? ==> r == Ok(if key in v.fields then v.fields[key] else Undefined)
    ensures !v.Obj? && !Nullish(v) ==> r == Ok(Undefined)
  {
    match v
    case Undefined => Err(ReadErrorMessage(v, key))
    case Null => Err(ReadErrorMessage(v, key))
    case Obj(fields) => Ok(if key in fields then fields[key] else Undefined)
    case _ => Ok(Undefined)
  }

  /** `v?.key` */
  function OptGet(v: JsValue, key: string): (r: JsValue)
    ensures Nullish(v) ==> r == Undefined
    ensures !Nullish(v) ==> Ok(r) == Get(v, key)
  {
    if Nullish(v) then Undefined else Get(v, key).value
  }

  /** `v[0]` */
  function First(v: JsValue): (r: Result<JsValue>)
    ensures r.Err? <==> Nullish(v)
    ensures v.Arr? ==> r == Ok(if |v.items| > 0 then v.items[0] else Undefined)
  {
    match v
    case Undefined => Err(ReadErrorMessage(v, "0"))
    case Null => Err(ReadErrorMessage(v, "0"))
    case Arr(items) => Ok(if |items| > 0 then items[0] else Undefined)
    case Obj(fields) => Ok(if "0" in fields then fields["0"] else Undefined)
    case Str(s) => Ok(if |s| > 0 then Str([s[0]]) else Undefined)
    case _ => Ok(Undefined)
  }

  // ---------------------------------------------------------------------
  // Decimal notation, as String(n) writes an integer
  // ---------------------------------------------------------------------

  predicate IsDigit(c: char)
  {
    '0' <= c <= '9'
  }

  function DigitChar(d: nat): (c: char)
    requires d < 10
    ensures IsDigit(c) && c as int - '0' as int == d
  {
    (d + '0' as int) as char
  }

  /** The decimal digits of `n`, most significant first, without leading zeros. */
  function NatToString(n: nat): (r: string)
    ensures |r| >= 1 && forall i :: 0 <= i < |r| ==> IsDigit(r[i])
    ensures |r| > 1 ==> r[0] != '0'
    decreases n
  {
    if n < 10 then [DigitChar(n)] else NatToString(n / 10) + [DigitChar(n % 10)]
  }

  /** The number a string of decimal digits denotes. */
  function DecimalValue(ds: string): nat
    requires forall i :: 0 <= i < |ds| ==> IsDigit(ds[i])
  {
    if ds == [] then 0
    else
      var d := ds[|ds| - 1];
      assert IsDigit(ds[|ds| - 1]);
      DecimalValue(ds[..|ds| - 1]) * 10 + (d as int - '0' as int)
  }

  /** Reading the decimal form of `n` back gives `n`. */
  lemma {:induction false} DecimalRoundTrip(n: nat)
    ensures DecimalValue(NatToString(n)) == n
  {
    if n >= 10 {
      var r := NatToString(n);
      assert r[..|r| - 1] == NatToString(n / 10);
      DecimalRoundTrip(n / 10);
    }
  }

  function IntToString(n: int): string
  {
    if n < 0 then "-" + NatToString(-n) else NatToString(n)
  }

  // ---------------------------------------------------------------------
  // String(v)
  // ---------------------------------------------------------------------

  function CommaJoin(parts: seq<string>): string
  {
    if |parts| == 0 then ""
    else if |parts| == 1 then parts[0]
    else parts[0] + "," + CommaJoin(parts[1..])
  }

  /** `String(v)`; an array joins its items with commas, null and undefined items as "". */
  function JsString(v: JsValue): (r: string)
    ensures v.Str? ==> r == v.s
    decreases v
  {
    match v
    case Undefined => "undefined"
    case Null => "null"
    case Bool(b) => if b then "true" else "false"
    case Number(n) => IntToString(n)
    case Str(s) => s
    case Obj(_) => "[object Object]"
    case Arr(items) =>
      CommaJoin(seq(|items|, i requires 0 <= i < |items| =>
        if Nullish(items[i]) then "" else JsString(items[i])))
  }

  // ---------------------------------------------------------------------
  // Whitespace and String.prototype.trim
  // ---------------------------------------------------------------------

  /**
   * The characters matched by `\s` and removed by trim(): ECMAScript's
   * WhiteSpace and LineTerminator productions.
   */
  predicate IsJsWhitespace(c: char)
  {
    || c == ' ' || c == '\t' || c == '\n' || c == '\r'
    || c as int == 0x0B || c as int == 0x0C || c as int == 0xA0 || c as int == 0x1680
    || (0x2000 <= c as int <= 0x200A)
    || c as int == 0x2028 || c as int == 0x2029 || c as int == 0x202F
    || c as int == 0x205F || c as int == 0x3000 || c as int == 0xFEFF
  }

  predicate AllWhitespace(s: string)
  {
    forall i :: 0 <= i < |s| ==> IsJsWhitespace(s[i])
  }

  /** The number of whitespace characters in `s` from index `i` on, up to the first other one. */
  function SpaceFrom(s: string, i: nat): (k: nat)
    requires i <= |s|
    ensures i + k <= |s|
    ensures i + k < |s| ==> !IsJsWhitespace(s[i + k])
    decreases |s| - i
  {
    if i < |s| && IsJsWhitespace(s[i]) then 1 + SpaceFrom(s, i + 1) else 0
  }

  lemma {:induction false} SpaceFromAll(s: string, i: nat)
    requires i <= |s|
    ensures forall j :: i <= j < i + SpaceFrom(s, i) ==> IsJsWhitespace(s[j])
    decreases |s| - i
  {
    if i < |s| && IsJsWhitespace(s[i]) {
      SpaceFromAll(s, i + 1);
    }
  }

  /** The number of whitespace characters in `s` just before index `n`. */
  function SpaceBefore(s: string, n: nat): (k: nat)
    requires n <= |s|
    ensures k <= n
    ensures k < n ==> !IsJsWhitespace(s[n - 1 - k])
  {
    if n > 0 && IsJsWhitespace(s[n - 1]) then 1 + SpaceBefore(s, n - 1) else 0
  }

  lemma {:induction false} SpaceBeforeAll(s: string, n: nat)
    requires n <= |s|
    ensures forall j :: n - SpaceBefore(s, n) <= j < n ==> IsJsWhitespace(s[j])
  {
    if n > 0 && IsJsWhitespace(s[n - 1]) {
      SpaceBeforeAll(s, n - 1);
    }
  }

  /** The number of whitespace characters `s` starts with. */
  function LeadingSpace(s: string): (k: nat)
    ensures k <= |s|
    ensures k < |s| ==> !IsJsWhitespace(s[k])
    ensures |s| > 0 && IsJsWhitespace(s[0]) ==> k > 0
  {
    SpaceFrom(s, 0)
  }

  /** Everything LeadingSpace counts is whitespace. */
  lemma LeadingSpaceAll(s: string)
    ensures AllWhitespace(s[..LeadingSpace(s)])
  {
    SpaceFromAll(s, 0);
  }

  /** The number of whitespace characters `s` ends with. */
  function TrailingSpace(s: string): (k: nat)
    ensures k <= |s|
    ensures k < |s| ==> !IsJsWhitespace(s[|s| - 1 - k])
  {
    SpaceBefore(s, |s|)
  }

  /** Everything TrailingSpace counts is whitespace. */
  lemma TrailingSpaceAll(s: string)
    ensures AllWhitespace(s[|s| - TrailingSpace(s)..])
  {
    SpaceBeforeAll(s, |s|);
  }

  /** A character that is not whitespace lies before the trailing whitespace. */
  lemma TrailingSpaceAfter(s: string, a: nat)
    requires a < |s| && !IsJsWhitespace(s[a])
    ensures a < |s| - TrailingSpace(s)
  {
    TrailingSpaceAll(s);
  }

  /** `s.trim()`: `s` with its leading and trailing whitespace removed. */
  function Trim(s: string): (r: string)
    ensures |r| <= |s|
  {
    var a := LeadingSpace(s);
    if a == |s| then []
    else
      var k := TrailingSpace(s);
      TrailingSpaceAfter(s, a);
      s[a..|s| - k]
  }

  /**
   * `trim()` returns a slice of its input with only whitespace cut at
   * either end, and the slice neither starts nor ends with whitespace.
   */
  lemma TrimSlice(s: string)
    ensures Trim(s) == [] || (!IsJsWhitespace(Trim(s)[0]) && !IsJsWhitespace(Trim(s)[|Trim(s)| - 1]))
    ensures exists a, b :: 0 <= a <= b <= |s| && Trim(s) == s[a..b]
                           && AllWhitespace(s[..a]) && AllWhitespace(s[b..])
  {
    var a := LeadingSpace(s);
    LeadingSpaceAll(s);
    TrailingSpaceAll(s);
    if a == |s| {
      assert s[..a] == s && s[a..a] == [] && s[a..] == [];
    } else {
      var k := TrailingSpace(s);
      assert Trim(s) == s[a..|s| - k];
    }
  }

  /** A string trims to nothing exactly when it is all whitespace. */
  lemma TrimEmptyIff(s: string)
    ensures Trim(s) == [] <==> AllWhitespace(s)
  {
    var a := LeadingSpace(s);
    LeadingSpaceAll(s);
    if a < |s| {
      TrailingSpaceAfter(s, a);
      assert !IsJsWhitespace(s[a]);
    } else {
      assert s[..a] == s;
    }
  }
}
