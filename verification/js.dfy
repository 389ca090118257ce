/**
  The JSON values a request body carries, and the few JavaScript operations
  the scheduler applies to them: truthiness and property access.
*/
module Js {

  /** What `Date.parse` makes of a value: a TypeError raised while turning it
      into a string (an object whose own `toString` is not a function, or an
      array holding one), `NaN`, or an instant in milliseconds. */
  datatype Parsed = Throws | NaN | At(ms: int)

  /** A parsed JSON value, plus `undefined` for a missing property. Numbers
      are integers here (see README). */
  datatype Json =
    | Undefined
    | Null
    | Bool(b: bool)
    | Num(n: int)
    | Str(s: string)
    | Arr(items: seq<Json>)
    | Obj(fields: map<string, Json>)

  /** JavaScript truthiness: `undefined`, `null`, `false`, `0` and `""` are
      falsy, everything else (including empty arrays and objects) is truthy. */
  predicate Truthy(v: Json)
  {
    match v
    case Undefined => false
    case Null => false
    case Bool(b) => b
    case Num(n) => n != 0
    case Str(s) => s != []
    case Arr(_) => true
    case Obj(_) => true
  }

  /** Reading a property off a value that is neither `null` nor `undefined`:
      an object's own field, or `undefined` when it has none; strings,
      numbers, booleans and arrays have no fields named like a task's. */
  function Prop(v: Json, key: string): Json
    requires !v.Undefined? && !v.Null?
  {
    if v.Obj? && key in v.fields then v.fields[key] else Undefined
  }
}
