/** The value `JSON.parse` hands to the message listener, and the few JavaScript
    semantics the listener applies to it: property reads, truthiness, and the
    conversion of a value into a property key of the callback table. */
module Json {
  import opened Wrappers
  import Decimal

  /** A parsed JSON value. Numbers are the reals the parsed doubles stand for; a literal out
      of double range, which JavaScript reads as Infinity, stays a large real here, and
      both are truthy, and the real names a table entry only after more than 10^308 requests. */
  datatype Value =
    | Null
    | Bool(b: bool)
    | Num(n: real)
    | Str(s: string)
    | Arr(items: seq<Value>)
    | Obj(fields: map<string, Value>)

  /** `v.key`: an object's own field; every other read is `undefined` (None). */
  function Get(v: Value, key: string): (r: Option<Value>)
    ensures r.Some? <==> v.Obj? && key in v.fields
  {
    if v.Obj? && key in v.fields then Some(v.fields[key]) else None
  }

  /** JavaScript truthiness of a property read: `undefined`, `null`, `false`, `0`
      and `""` are falsy, everything else (objects and arrays included) is truthy. */
  predicate Truthy(v: Option<Value>) {
    match v
    case None => false
    case Some(Null) => false
    case Some(Bool(b)) => b
    case Some(Num(n)) => n != 0.0
    case Some(Str(s)) => s != ""
    case Some(_) => true
  }

  /** The whole-number property key that `table[v]` looks up, if `v` names one:
      a whole number, or a string holding the decimal form of one. */
  function TableKey(v: Value): Option<nat> {
    match v
    case Num(n) => if n >= 0.0 && n == n.Floor as real then Some(n.Floor as nat) else None
    case Str(s) => Decimal.Parse(s)
    case _ => None
  }

  /** A message id names table entry `k` exactly when it is the number `k` or the string of `k`'s digits. */
  lemma TableKeyIff(v: Value, k: nat)
    ensures TableKey(v) == Some(k) <==> v == Num(k as real) || v == Str(Decimal.Show(k))
  {
    if v.Str? {
      Decimal.ParseIffShow(v.s, k);
    }
  }
}
