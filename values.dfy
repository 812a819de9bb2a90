/** JavaScript values as the monitor handles them: node replies, snapshot entries,
    environment values after JSON.parse, and the configuration tree. */
module Values {

  /** A JSON-like JavaScript value. Numbers are integers (block heights and counts);
      an object is a map from property names to values. */
  datatype JsVal =
    | JUndefined
    | JNull
    | JBool(b: bool)
    | JNum(n: int)
    | JStr(s: string)
    | JArr(elems: seq<JsVal>)
    | JObj(props: map<string, JsVal>)

  /** What the core throws. ArrayCursor marks the one path the model does not follow:
      a configuration key that walks into an array (see README, "Left out"). */
  datatype Error = TypeError(message: string) | ArrayCursor

  datatype Option<+T> = None | Some(value: T)

  datatype Result<+T> = Ok(value: T) | Err(error: Error) {
    predicate IsFailure() { Err? }

    function PropagateFailure<U>(): Result<U>
      requires Err?
    {
      Err(error)
    }

    function Extract(): T
      requires Ok?
    {
      value
    }
  }

  /** ToBoolean: the values that `if (x)` accepts. */
  predicate Truthy(v: JsVal) {
    match v
    case JUndefined => false
    case JNull => false
    case JBool(b) => b
    case JNum(n) => n != 0
    case JStr(s) => s != ""
    case JArr(_) => true
    case JObj(_) => true
  }

  /** The `typeof` operator: null, arrays and objects are all "object". */
  function TypeOf(v: JsVal): string {
    match v
    case JUndefined => "undefined"
    case JBool(_) => "boolean"
    case JNum(_) => "number"
    case JStr(_) => "string"
    case _ => "object"
  }

  /** `Array.isArray`. */
  predicate IsArray(v: JsVal) {
    v.JArr?
  }

  /** null and undefined: the values whose property reads throw. */
  predicate Nullish(v: JsVal) {
    v.JNull? || v.JUndefined?
  }

  /** The property read `v[k]` on a value that is not nullish, for the properties the core reads
      (configuration keys and the fields of a node's reply): a missing one reads as undefined.
      Array indices and `length`, and the built-in properties of primitives, are not modelled. */
  function Get(v: JsVal, k: string): JsVal {
    if v.JObj? && k in v.props then v.props[k] else JUndefined
  }

  /** The property write `v[k] = x` on an object. */
  function SetProp(v: JsVal, k: string, x: JsVal): JsVal
    requires v.JObj?
  {
    JObj(v.props[k := x])
  }

  /** The value reached from `v` by reading the properties of `path` in turn. */
  function At(v: JsVal, path: seq<string>): JsVal
    decreases |path|
  {
    if path == [] then v else At(Get(v, path[0]), path[1..])
  }

  /** `v` is an object, and so is every value on the way down `path` (its end included). */
  predicate ObjPath(v: JsVal, path: seq<string>)
    decreases |path|
  {
    v.JObj? && (path == [] || ObjPath(Get(v, path[0]), path[1..]))
  }

  /** `path` names properties that are present, one inside the other, from `v` down. */
  predicate Reaches(v: JsVal, path: seq<string>)
    decreases |path|
  {
    path == [] || (v.JObj? && path[0] in v.props && Reaches(v.props[path[0]], path[1..]))
  }

  lemma {:induction false} AtAppend(v: JsVal, path: seq<string>, k: string)
    ensures At(v, path + [k]) == Get(At(v, path), k)
    decreases |path|
  {
    if path == [] {
      assert At(v, [k]) == At(Get(v, k), []);
    } else {
      assert (path + [k])[1..] == path[1..] + [k];
      AtAppend(Get(v, path[0]), path[1..], k);
    }
  }
}
