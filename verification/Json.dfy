/** JSON documents as the scripts hold them, and Python's `==` on them. */
module Json {
  import opened Wrappers
  import opened Sorting

  /** A finite `decimal.Decimal`: sign, digits as a number, and power of ten. */
  datatype Decimal = Decimal(negative: bool, coefficient: nat, exponent: int)

  datatype Json =
    | Null
    | Bool(b: bool)
    | Int(n: int)
    | Dec(d: Decimal)
    | Str(s: string)
    | Arr(items: seq<Json>)
    | Obj(members: seq<Member>)

  datatype Member = Member(key: string, value: Json)

  /** `dict.get(key)`, with `None` for a missing key. */
  function Lookup(members: seq<Member>, key: string): (r: Option<Json>)
    ensures r.Some? ==> Member(key, r.value) in members
  {
    if members == [] then None
    else if members[0].key == key then Some(members[0].value)
    else Lookup(members[1..], key)
  }

  function Keys(members: seq<Member>): (r: seq<string>)
    ensures |r| == |members| && forall i :: 0 <= i < |members| ==> r[i] == members[i].key
  {
    seq(|members|, i requires 0 <= i < |members| => members[i].key)
  }

  function Pow10(k: nat): (p: int)
    ensures p >= 1
  {
    if k == 0 then 1 else 10 * Pow10(k - 1)
  }

  /** The number a decimal denotes. */
  function Value(d: Decimal): real {
    var m := if d.exponent >= 0
      then d.coefficient as real * Pow10(d.exponent) as real
      else d.coefficient as real / Pow10(-d.exponent) as real;
    if d.negative then -m else m
  }

  /** The number Python compares a value as, if it is one; `True` is 1. */
  function NumberOf(v: Json): Option<real> {
    match v
    case Bool(b) => Some(if b then 1.0 else 0.0)
    case Int(n) => Some(n as real)
    case Dec(d) => Some(Value(d))
    case _ => None
  }

  /** Python's `==`: numbers by value, lists item by item, dictionaries without order. */
  predicate PyEqual(a: Json, b: Json)
    decreases a
  {
    if NumberOf(a).Some? || NumberOf(b).Some? then NumberOf(a) == NumberOf(b)
    else match (a, b)
      case (Null, Null) => true
      case (Str(s), Str(t)) => s == t
      case (Arr(xs), Arr(ys)) =>
        |xs| == |ys| && forall i :: 0 <= i < |xs| ==> PyEqual(xs[i], ys[i])
      case (Obj(ms), Obj(ns)) =>
        && (forall k :: k in Keys(ns) ==> k in Keys(ms))
        && forall i :: 0 <= i < |ms| ==>
             var other := Lookup(ns, ms[i].key);
             other.Some? && PyEqual(ms[i].value, other.value)
      case _ => false
  }

  /** No dictionary in the document names a key twice. */
  predicate WellFormed(v: Json) {
    match v
    case Arr(items) => forall i :: 0 <= i < |items| ==> WellFormed(items[i])
    case Obj(members) =>
      Distinct(Keys(members)) && forall i :: 0 <= i < |members| ==> WellFormed(members[i].value)
    case _ => true
  }
}
