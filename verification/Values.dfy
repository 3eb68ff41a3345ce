/**
 JSON values as the cJSON library holds them: a container owns a chain of
 siblings, and a sibling carries a name only when its parent is an object.
 */
module Values {
  import opened Base

  datatype Value =
    | Null
    | False
    | True
    | Number(num: real)
    | String(text: bytes)
    | Array(elems: Items)
    | Object(members: Items)

  datatype Items = Nil | Cons(name: Option<bytes>, value: Value, next: Items)

  /** The sibling chain below a value; scalars have none. */
  function Kids(v: Value): Items {
    match v
    case Array(elems) => elems
    case Object(members) => members
    case _ => Nil
  }

  function Max(a: nat, b: nat): nat { if a < b then b else a }

  /** How many containers are open at the deepest point of the value. */
  function Nesting(v: Value): nat {
    match v
    case Array(elems) => 1 + NestingOfItems(elems)
    case Object(members) => 1 + NestingOfItems(members)
    case _ => 0
  }

  function NestingOfItems(xs: Items): nat {
    match xs
    case Nil => 0
    case Cons(_, v, next) => Max(Nesting(v), NestingOfItems(next))
  }

  const INT_MIN := -0x8000_0000
  const INT_MAX := 0x7fff_ffff

  predicate IsInt32(d: real) { d == d.Floor as real && INT_MIN <= d.Floor <= INT_MAX }

  /**
   The values a caller can build from null, booleans, 32-bit integers, NUL-free
   strings, arrays of unnamed elements and objects of named members.
   */
  predicate Plain(v: Value) {
    match v
    case Number(d) => IsInt32(d)
    case String(s) => NUL !in s
    case Array(elems) => PlainItems(elems, false)
    case Object(members) => PlainItems(members, true)
    case _ => true
  }

  predicate PlainItems(xs: Items, named: bool) {
    match xs
    case Nil => true
    case Cons(name, v, next) =>
      && (name.Some? <==> named)
      && (name.Some? ==> NUL !in name.value)
      && Plain(v)
      && PlainItems(next, named)
  }

  /** The saturated integer that accompanies every parsed number. */
  function ValueInt(d: real): (i: int)
    ensures INT_MIN <= i <= INT_MAX
    ensures d >= INT_MAX as real ==> i == INT_MAX
    ensures d <= INT_MIN as real ==> i == INT_MIN
    ensures 0.0 <= d < INT_MAX as real ==> i as real <= d < (i + 1) as real
    ensures INT_MIN as real < d <= 0.0 ==> (i - 1) as real < d <= i as real
    ensures IsInt32(d) ==> i as real == d
  {
    if d >= INT_MAX as real then INT_MAX
    else if d <= INT_MIN as real then INT_MIN
    else if d >= 0.0 then d.Floor
    else -((-d).Floor)
  }
}
