/** Raw API records as the tweet items receive them: a decoded JSON object is a map from
    string keys to values, and the lookups below follow Python's dictionary semantics. */
module RawRecords {

  datatype Option<+T> = None | Some(value: T)

  /** A decoded JSON value. Arrays and floating-point numbers never reach the modelled
      properties and are not represented. */
  datatype Value =
    | Null
    | Bool(b: bool)
    | Int(i: int)
    | Text(s: string)
    | Obj(fields: map<string, Value>)

  type Record = map<string, Value>

  /** `record.get(key)`: the value under `key`, or None when the key is absent. */
  function Get(r: Record, key: string): (v: Option<Value>)
    ensures v.Some? <==> key in r
    ensures v.Some? ==> v.value == r[key]
  {
    if key in r then Some(r[key]) else None
  }

  /** Python truthiness of `record.get(key)`, where an absent key reads as None. */
  predicate Truthy(v: Option<Value>)
  {
    match v
    case None => false
    case Some(Null) => false
    case Some(Bool(b)) => b
    case Some(Int(i)) => i != 0
    case Some(Text(s)) => s != ""
    case Some(Obj(m)) => m != map[]
  }

  predicate IsDigit(c: char) { '0' <= c <= '9' }

  function DigitOf(c: char): (d: nat)
    requires IsDigit(c)
    ensures d < 10
  {
    c as int - '0' as int
  }

  /** The number written by a non-empty string of decimal digits. */
  function DigitsValue(s: string): (n: nat)
    requires forall k :: 0 <= k < |s| ==> IsDigit(s[k])
  {
    if s == [] then 0 else DigitsValue(s[..|s| - 1]) * 10 + DigitOf(s[|s| - 1])
  }

  predicate AllDigits(s: string)
  {
    s != [] && forall k :: 0 <= k < |s| ==> IsDigit(s[k])
  }

  /** Python's `int(x)` on what `.get('idstr')` returned: None when `int` raises. An integer
      or a boolean converts directly; a string converts when it is an optional sign followed by
      decimal digits. */
  function IntOf(v: Option<Value>): (n: Option<int>)
    ensures v.Some? && v.value.Int? ==> n == Some(v.value.i)
    ensures v.None? || v.value.Null? || v.value.Obj? ==> n.None?
    ensures v.Some? && v.value.Text? && AllDigits(v.value.s) ==> n == Some(DigitsValue(v.value.s))
  {
    match v
    case Some(Int(i)) => Some(i)
    case Some(Bool(b)) => Some(if b then 1 else 0)
    case Some(Text(s)) =>
      if AllDigits(s) then Some(DigitsValue(s))
      else if |s| > 1 && s[0] == '-' && AllDigits(s[1..]) then Some(-(DigitsValue(s[1..]) as int))
      else if |s| > 1 && s[0] == '+' && AllDigits(s[1..]) then Some(DigitsValue(s[1..]))
      else None
    case _ => None
  }
}
