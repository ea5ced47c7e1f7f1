/**
  The scalar Python values the handler meets in its configuration, in the
  event's group id and in the parsing service's JSON reply, together with
  the three Python operations applied to them: truthiness (`if x`),
  `str(x)` (also what an f-string substitutes) and `==` against a literal.
 */
module PyValue {
  import Decimal

  datatype Value = Null | Bool(b: bool) | Int(i: int) | Str(s: string)

  /** Python truthiness: `None`, `False`, `0` and `""` are false, everything else true. */
  predicate Truthy(v: Value) {
    match v
    case Null => false
    case Bool(b) => b
    case Int(i) => i != 0
    case Str(s) => |s| > 0
  }

  /** Python's `str(v)`. */
  function ToStr(v: Value): (s: string)
    ensures v.Str? ==> s == v.s
    ensures !v.Str? ==> |s| > 0
  {
    match v
    case Null => "None"
    case Bool(b) => if b then "True" else "False"
    case Int(i) => Decimal.IntToDecimal(i)
    case Str(s) => s
  }

  /** Python's `v == n` for an integer literal `n`; `True == 1` and `False == 0` hold in Python. */
  predicate EqualsInt(v: Value, n: int) {
    match v
    case Bool(b) => (if b then 1 else 0) == n
    case Int(i) => i == n
    case _ => false
  }

  /** Python's `v == lit` for a string literal `lit`. */
  predicate EqualsStr(v: Value, lit: string) {
    v == Str(lit)
  }

  /**
    Integers are compared by spelling when the handler compares `str(a) == str(b)`;
    for two integers that is exactly integer equality.
   */
  lemma ToStrIntInjective(a: int, b: int)
    ensures ToStr(Int(a)) == ToStr(Int(b)) <==> a == b
  {
    Decimal.IntToDecimalInjective(a, b);
  }

  /** An integer and a string have the same `str` exactly when the string is the integer's decimal spelling. */
  lemma ToStrIntMatchesString(i: int, s: string)
    ensures ToStr(Int(i)) == ToStr(Str(s)) <==> s == Decimal.IntToDecimal(i)
  {
  }
}
