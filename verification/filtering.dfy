/**
 * The marking filter: which children `markChildren` may mark. Either an
 * attribute must equal a value (or one of a list of values), or a predicate
 * decides.
 */
module Filtering {
  import opened Store

  /** A scalar filter value, or an array of values any of which may match. */
  datatype Expected = One(v: Value) | AnyOf(vs: seq<Value>)

  datatype Filter =
    | NoFilter
    | ParamFilter(name: string, expected: Expected)   // `setMarkingFilter`
    | FuncFilter(f: (Key, Node) -> bool)              // `setMarkingFilterFunction`

  /** PHP reads "" and "0" as false: such a parameter name selects nothing. */
  predicate FalsyName(name: string) {
    name == "" || name == "0"
  }

  /** The array branch: a scan that stops at the first value equal to `x`. */
  function AnyEquals(vs: seq<Value>, x: Value): (r: bool)
    ensures r <==> x in vs
  {
    if vs == [] then false
    else if vs[0] == x then true
    else AnyEquals(vs[1..], x)
  }

  /**
   * `markingFilterMatches`: no filter matches everything; an attribute
   * filter compares the node's attribute with the value, or looks for it in
   * the array; a predicate filter returns the predicate's answer.
   */
  function FilterMatches(filter: Filter, k: Key, n: Node): (r: bool)
    ensures filter.NoFilter? ==> r
    ensures filter.ParamFilter? && FalsyName(filter.name) ==> !r
    ensures filter.ParamFilter? && !FalsyName(filter.name) && filter.expected.One? ==>
              (r <==> Attr(k, n, filter.name) == filter.expected.v)
    ensures filter.ParamFilter? && !FalsyName(filter.name) && filter.expected.AnyOf? ==>
              (r <==> Attr(k, n, filter.name) in filter.expected.vs)
    ensures filter.ParamFilter? && filter.expected == AnyOf([]) ==> !r
    ensures filter.FuncFilter? ==> r == filter.f(k, n)
  {
    match filter
    case NoFilter => true
    case ParamFilter(name, expected) =>
      if FalsyName(name) then false
      else (
        match expected
        case One(v) => Attr(k, n, name) == v
        case AnyOf(vs) => AnyEquals(vs, Attr(k, n, name)))
    case FuncFilter(f) => f(k, n)
  }
}
