/**
 * Parsed JSON documents, as `json.load` produces them: None, booleans,
 * integers, strings, lists and string-keyed dicts.
 */
module Json {

  datatype Value =
    | Null
    | Bool(b: bool)
    | Int(i: int)
    | Str(s: string)
    | Arr(elems: seq<Value>)
    | Obj(members: map<string, Value>)

  /** Python's truth value of a JSON value (`if v:`). */
  predicate Truthy(v: Value)
  {
    match v
    case Null => false
    case Bool(b) => b
    case Int(i) => i != 0
    case Str(s) => s != ""
    case Arr(a) => a != []
    case Obj(m) => m != map[]
  }

  /** `isinstance(v, dict) and v`: a dict with at least one key. */
  predicate IsNonEmptyDict(v: Value)
  {
    v.Obj? && v.members != map[]
  }

  /**
   * The outcome of code that either returns a value or dies with a
   * TypeError or AttributeError. Which of the two Python raises can depend
   * on dict iteration order, so the model does not tell them apart.
   */
  datatype Outcome<+T> = Ok(value: T) | Fault
}
