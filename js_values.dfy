/** Values as the JavaScript core sees them. A string-typed member of a JSON
    object or a form record is undefined (absent), null, or a string; a
    nullable database column is a present or absent string. */
module JsValues {

  datatype Option<T> = None | Some(value: T)

  /** A member that holds a string, or is `undefined` or `null`. */
  datatype JsValue = Undefined | Null | Str(value: string)

  /** JavaScript truthiness: `!!v`. */
  predicate Truthy(v: JsValue) {
    v.Str? && v.value != ""
  }

  /** `${v}` in a template literal. */
  function Interpolate(v: JsValue): string {
    match v
    case Undefined => "undefined"
    case Null => "null"
    case Str(s) => s
  }

  /** `obj[k]` on a plain object; undefined when the member is missing. */
  function Get(obj: map<string, JsValue>, k: string): JsValue {
    if k in obj then obj[k] else Undefined
  }

  /** An object whose members are the given strings. */
  function Strings(m: map<string, string>): map<string, JsValue> {
    map k | k in m :: Str(m[k])
  }

  /** A string or null: a nullable TEXT column as the sqlite driver hands it
      over (null for NULL), or `x ? s : null`. */
  function OrNull(v: Option<string>): JsValue {
    if v.Some? then Str(v.value) else Null
  }

  /** `v || fallback` for a member that should hold a string. */
  function OrElse(v: JsValue, fallback: string): string {
    if Truthy(v) then v.value else fallback
  }
}
