/**
 * Task documents as nested JSON-like values, and the dotted-path lookups
 * (pydash `get` and `has`) that the builder performs on them. A path is
 * given already split at its dots.
 */
module Json {
  import opened Wrappers

  datatype Value =
    | Null
    | Bool(b: bool)
    | Num(r: real)
    | Str(s: string)
    | Arr(items: seq<Value>)
    | Obj(fields: map<string, Value>)

  type Path = seq<string>

  /** The value found by following `path` through nested objects, if every step exists. */
  function Get(doc: Value, path: Path): Option<Value>
    decreases |path|
  {
    if path == [] then Some(doc)
    else
      match doc
      case Obj(m) => if path[0] in m then Get(m[path[0]], path[1..]) else None
      case _ => None
  }

  /** pydash `has`: the path leads to a value. */
  predicate Has(doc: Value, path: Path) {
    Get(doc, path).Some?
  }

  /** pydash `get` with a default for a missing path. */
  function GetOr(doc: Value, path: Path, default: Value): (v: Value)
    ensures Has(doc, path) ==> Get(doc, path) == Some(v)
    ensures !Has(doc, path) ==> v == default
  {
    match Get(doc, path)
    case Some(found) => found
    case None => default
  }
}
