/** The values a loaded configuration holds.  A configuration is a mapping
    from string keys to values; a value is a JSON-style scalar, a list, or
    a nested mapping (a plain `dict` built by the environment loader, or an
    object the JSON decoder produced). */
module Configuration {
  import opened Wrappers

  datatype Value =
    | Null
    | Bool(b: bool)
    | Int(i: int)
    | Float(f: real)
    | Str(s: string)
    | List(items: seq<Value>)
    | Dict(entries: map<string, Value>)

  type Config = map<string, Value>

  /** The value reached from `v` by following the keys of `path`, one
      nesting level per key; `None` when a key is missing or a non-mapping
      value is met before the path ends. */
  function Lookup(v: Value, path: seq<string>): (r: Option<Value>)
    ensures path == [] ==> r == Some(v)
    ensures !v.Dict? && path != [] ==> r == None
  {
    if path == [] then Some(v)
    else if v.Dict? && path[0] in v.entries then Lookup(v.entries[path[0]], path[1..])
    else None
  }
}
