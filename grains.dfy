/** Grain values as the minion's grain store hands them out, with Python's
    truthiness (`not grain_value`) and `str()` on them. */
module Grains {

  /** A value `grains.get(name, None)` can return. Floats, lists and dictionaries
      are carried by what the plugin asks of them: whether they are truthy and
      what `str()` makes of them. */
  datatype GrainValue =
    | NoValue
    | Bool(b: bool)
    | Int(i: int)
    | Text(s: string)
    | Other(truthy: bool, text: string)

  /** Python truthiness: `None`, `False`, `0` and `''` are all falsy. */
  predicate Truthy(v: GrainValue)
  {
    match v
    case NoValue => false
    case Bool(b) => b
    case Int(i) => i != 0
    case Text(s) => s != []
    case Other(truthy, _) => truthy
  }

  predicate IsDigit(c: char)
  {
    '0' <= c <= '9'
  }

  function DigitChar(d: int): (c: char)
    requires 0 <= d < 10
    ensures IsDigit(c)
  {
    ('0' as int + d) as char
  }

  /** The number a string of decimal digits denotes. */
  function DigitsValue(s: string): nat
    requires forall k | 0 <= k < |s| :: IsDigit(s[k])
    decreases |s|
  {
    if s == [] then 0
    else
      assert IsDigit(s[|s| - 1]);
      DigitsValue(s[..|s| - 1]) * 10 + (s[|s| - 1] as int - '0' as int)
  }

  /** Decimal digits of `n`, without leading zeros. */
  function NatToString(n: nat): (s: string)
    ensures s != [] && (s[0] == '0' ==> n == 0 && s == "0")
    ensures forall k | 0 <= k < |s| :: IsDigit(s[k])
    ensures DigitsValue(s) == n
    decreases n
  {
    if n < 10 then [DigitChar(n)]
    else
      var front := NatToString(n / 10);
      var s := front + [DigitChar(n % 10)];
      assert s[..|s| - 1] == front;
      s
  }

  /** Python's `str()` on an `int`: an optional minus sign and the decimal digits
      of the magnitude. */
  function IntToString(i: int): (s: string)
    ensures i >= 0 ==> (forall k | 0 <= k < |s| :: IsDigit(s[k])) && DigitsValue(s) == i
    ensures i < 0 ==> |s| >= 2 && s[0] == '-' && (forall k | 1 <= k < |s| :: IsDigit(s[k])) && DigitsValue(s[1..]) == -i
    ensures i >= 0 ==> s == NatToString(i)
    ensures i < 0 ==> s == "-" + NatToString(-i)
  {
    if i < 0 then
      var s := "-" + NatToString(-i);
      assert s[1..] == NatToString(-i);
      s
    else NatToString(i)
  }

  /** Python 3's `str()` on a grain value. */
  function Str(v: GrainValue): string
  {
    match v
    case NoValue => "None"
    case Bool(b) => if b then "True" else "False"
    case Int(i) => IntToString(i)
    case Text(s) => s
    case Other(_, text) => text
  }
}
