/** The values the extension keeps in `chrome.storage.local`: JSON values other
    than arrays, read back by key. An absent key reads as `undefined`. */
module Storage {
  import opened Wrappers

  datatype Value =
    | Null
    | Bool(b: bool)
    | Num(n: int)
    | Str(s: string)
    | Obj(fields: map<string, Value>)

  type Store = map<string, Value>

  /** `result[key]` after `chrome.storage.local.get`. */
  function Get(store: Store, key: string): (r: Option<Value>)
    ensures r.Some? <==> key in store
    ensures r.Some? ==> r.value == store[key]
  {
    if key in store then Some(store[key]) else None
  }

  /** JavaScript truthiness of what was read; `undefined` is falsy. */
  predicate IsTruthy(v: Option<Value>) {
    match v
    case None => false
    case Some(Null) => false
    case Some(Bool(b)) => b
    case Some(Num(n)) => n != 0
    case Some(Str(s)) => s != ""
    case Some(Obj(_)) => true
  }

  /** `value.field` on an object read from storage: `undefined` when the value
      is not an object or lacks the field. */
  function Field(v: Value, field: string): (r: Option<Value>)
    ensures r.Some? <==> v.Obj? && field in v.fields
  {
    if v.Obj? && field in v.fields then Some(v.fields[field]) else None
  }
}
