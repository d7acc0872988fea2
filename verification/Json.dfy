/** JSON values as Python sees them: `True` and `False` are integers, numbers compare by value. */
module Json {
  import opened Wrappers

  datatype Value =
    | Null
    | Bool(b: bool)
    | Int(n: int)
    | Float(r: real)
    | Str(s: string)
    | List(items: seq<Value>)
    | Object(fields: map<string, Value>)

  /** `isinstance(value, int)`, and the integer. */
  function AsInt(v: Value): Option<int> {
    match v
    case Int(n) => Some(n)
    case Bool(b) => Some(if b then 1 else 0)
    case _ => None
  }

  /** `value == n` for an integer n. */
  predicate EqualsInt(v: Value, n: int) {
    match v
    case Int(m) => m == n
    case Bool(b) => (if b then 1 else 0) == n
    case Float(r) => r == n as real
    case _ => false
  }

  /** What is an integer, and what equals it: `True` and `False` are 1 and 0, and a float may equal an integer. */
  lemma IntegersExact(v: Value, n: int)
    ensures AsInt(v) == Some(n) <==> v == Int(n) || (v == Bool(true) && n == 1) || (v == Bool(false) && n == 0)
    ensures EqualsInt(v, n) <==> AsInt(v) == Some(n) || (v.Float? && v.r == n as real)
  {
  }

  /** `dict.get(key)`: null for a missing key. */
  function Get(fields: map<string, Value>, key: string): Value {
    if key in fields then fields[key] else Null
  }
}
