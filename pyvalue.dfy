/** The Python values that flow through the handlers: table entities, event
    payloads and response dictionaries. */
module PyValue {
  import opened Wrappers
  import Text

  /** A Python value as stored in a table property, an event payload or a response.
      A dict keeps its insertion order, which is the order `str()` prints it in. Ints
      and floats are both numbers here. */
  datatype Val = VNone | VBool(b: bool) | VNum(num: real) | VStr(str: string)
               | VList(elems: seq<Val>) | VDict(items: seq<(string, Val)>)

  /** A table entity: a dict from property name to value. The table service does not
      store properties whose value is None, so an absent key and a None value are
      both "absent" here. */
  type Entity = map<string, Val>

  /** Python truthiness, as `x or default` and `if not x` test it. */
  predicate Truthy(v: Val) {
    match v
    case VNone => false
    case VBool(b) => b
    case VNum(r) => r != 0.0
    case VStr(s) => s != ""
    case VList(elems) => elems != []
    case VDict(items) => items != []
  }

  /** `d.get(k)` on an insertion-ordered dict: the value of the first entry with key `k`. */
  function Lookup(items: seq<(string, Val)>, k: string): (r: Option<Val>)
    ensures r.Some? <==> exists i :: 0 <= i < |items| && items[i].0 == k
    ensures r.Some? ==> exists i :: 0 <= i < |items| && items[i] == (k, r.value)
  {
    if items == [] then None
    else if items[0].0 == k then Some(items[0].1)
    else Lookup(items[1..], k)
  }

  /** `entity.get(k, d)`. */
  function GetOr(e: Entity, k: string, d: Val): (r: Val)
    ensures k in e ==> r == e[k]
    ensures k !in e ==> r == d
  {
    if k in e then e[k] else d
  }

  /** A value arithmetic and comparisons accept: a number, or a bool, which Python
      treats as the int 1 or 0. */
  predicate IsNumber(v: Val) {
    v.VNum? || v.VBool?
  }

  /** The numeric value of a number or a bool. */
  function AsNumber(v: Val): real
    requires IsNumber(v)
  {
    if v.VNum? then v.num else if v.b then 1.0 else 0.0
  }

  /** The number held at key `k`, if the entity has one there; a stored bool reads
      as 1 or 0. */
  function NumAt(e: Entity, k: string): (r: Option<real>)
    ensures r.Some? <==> k in e && (e[k].VNum? || e[k].VBool?)
    ensures r.Some? && e[k].VNum? ==> r.value == e[k].num
    ensures r.Some? && e[k].VBool? ==> r.value == (if e[k].b then 1.0 else 0.0)
  {
    if k in e && IsNumber(e[k]) then Some(AsNumber(e[k])) else None
  }

  /** How Python's `repr` writes the two leaf kinds whose text this model does not
      spell out: strings (quote choice and escapes) and floats (shortest round-trip digits). */
  datatype Reprs = Reprs(str: string -> string, num: real -> string)

  /** `repr(v)`, which is also what `str()` and an f-string print for a dict or a
      list: a dict prints as `{k: v, ...}` with `repr` of each key and value, a list as
      `[v, ...]`. This is Python's notation, not JSON. */
  function Repr(v: Val, rp: Reprs): string {
    match v
    case VNone => "None"
    case VBool(b) => if b then "True" else "False"
    case VNum(r) => rp.num(r)
    case VStr(s) => rp.str(s)
    case VList(elems) =>
      "[" + Text.Join(seq(|elems|, i requires 0 <= i < |elems| =>
                             assert elems[i] in elems;
                             Repr(elems[i], rp)), ", ") + "]"
    case VDict(items) =>
      "{" + Text.Join(seq(|items|, i requires 0 <= i < |items| =>
                             assert items[i] in items;
                             rp.str(items[i].0) + ": " + Repr(items[i].1, rp)), ", ") + "}"
  }
}
