/** JSON documents, as the client holds them after `json.loads`, with value semantics. */
module Json {
  datatype Option<+T> = None | Some(value: T)

  /** The outcome of code that may raise: a value, or the exception it raises. */
  datatype Result<+T> = Success(value: T) | Failure(error: Error)

  datatype Error = AttributeError | InvalidServiceType | KeyError | RuntimeError | TypeError | ValueError

  /** A document tree. `Dropped` is the sentinel object the client stores in a delta for a removed key;
      no document read from the contract server holds it. */
  datatype Value =
    | Null
    | Bool(b: bool)
    | Int(n: int)
    | Str(s: string)
    | Datetime(stamp: int)
    | Arr(items: seq<Value>)
    | Obj(fields: Dict)
    | Dropped

  type Dict = map<string, Value>

  /** What the document holds at the end of a path of keys. */
  function AtPath(v: Value, path: seq<string>): Option<Value> {
    if path == [] then Some(v)
    else if v.Obj? && path[0] in v.fields then AtPath(v.fields[path[0]], path[1..])
    else None
  }

  /** `d.get(k)`: null when the key is absent. */
  function Get(d: Dict, k: string): Value {
    if k in d then d[k] else Null
  }
}
