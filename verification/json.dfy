/**
 The JSON values found in the analyser's report, and the few Python
 operations the normaliser applies to them: truth value, `dict.get` and
 iteration by a `for` loop.
 */
module Json {

  /** A decoded JSON value as Python's `json` module hands it over.
      A missing key and an explicit `null` both read as `Null`.
      Floating-point numbers are not represented. */
  datatype Value =
    | Null
    | Bool(b: bool)
    | Int(i: int)
    | Str(s: string)
    | List(items: seq<Value>)
    | Dict(fields: map<string, Value>)

  /** Python's truth value `bool(v)`: `None`, `False`, `0` and every empty
      string, list or mapping are false; everything else is true. */
  predicate Truthy(v: Value): (t: bool)
    ensures !t <==>
      v == Null || v == Bool(false) || v == Int(0) ||
      v == Str("") || v == List([]) || v == Dict(map[])
  {
    match v
    case Null => false
    case Bool(b) => b
    case Int(i) => i != 0
    case Str(s) => |s| > 0
    case List(xs) => |xs| > 0
    case Dict(m) => |m| > 0
  }

  /** `fields.get(key, default)` */
  function Get(fields: map<string, Value>, key: string, default: Value): Value {
    if key in fields then fields[key] else default
  }

  /** True when a Python `for` loop runs over `v` without raising and the
      model knows the order it visits: a list visits its entries, a string
      its characters. Iterating `None`, a bool or an int raises TypeError;
      iterating a mapping visits its keys in an order a `map` does not keep. */
  predicate Iterable(v: Value) {
    v.List? || v.Str?
  }

  /** The values a Python `for` loop over `v` binds, in order. */
  function Elements(v: Value): (r: seq<Value>)
    requires Iterable(v)
    ensures v.List? ==> r == v.items
    ensures v.Str? ==> |r| == |v.s| && forall k :: 0 <= k < |r| ==> r[k] == Str([v.s[k]])
  {
    if v.List? then v.items
    else seq(|v.s|, k requires 0 <= k < |v.s| => Str([v.s[k]]))
  }
}
