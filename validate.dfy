/**
 * The parameter validators. Each one either lets the call go on or fails with
 * an error that carries a code and the attributes that `createError` copies
 * onto the thrown `Error` (src/common/create_error.js).
 */
module Validate {
  import opened JsValue

  datatype ErrorCode = MissingParameter | InvalidParType {
    /** The code as the thrown error's `code` property spells it. */
    function Name(): string {
      match this
      case MissingParameter => "E_MISSING_PARAMETER"
      case InvalidParType => "E_INVALID_PAR_TYPE"
    }
  }

  /** A thrown validation error: its `code` and its copied attributes. */
  datatype Error = Error(code: ErrorCode, attributes: map<string, Value>)

  /** Returning normally, or throwing the error. */
  datatype Outcome = Pass | Fail(error: Error)

  /** `validate(code, check, attributes)`: throw unless `check` holds. */
  function Check(code: ErrorCode, check: bool, attributes: map<string, Value>): (r: Outcome)
    ensures r.Pass? <==> check
    ensures r.Fail? ==> r.error.code == code && r.error.attributes == attributes
  {
    if check then Pass else Fail(Error(code, attributes))
  }

  /** `validatePresence(value, name)`: only `undefined` is missing. */
  function Presence(value: Value, name: string): (r: Outcome)
    ensures r.Pass? <==> !value.Undefined?
    ensures r.Fail? ==> r.error == Error(MissingParameter, map["name" := Str(name)])
  {
    Check(MissingParameter, TypeOf(value) != "undefined", map["name" := Str(name)])
  }

  /** The attributes of a type error: what was expected, the parameter and its value. */
  function TypeAttributes(value: Value, name: string, expected: string): (m: map<string, Value>)
    ensures m.Keys == {"expected", "name", "value"}
    ensures m["expected"] == Str(expected) && m["name"] == Str(name) && m["value"] == value
  {
    map["expected" := Str(expected), "name" := Str(name), "value" := value]
  }

  /** `validateType(value, name, check, expected)`: the test is done by the caller. */
  function Type(value: Value, name: string, check: bool, expected: string): (r: Outcome)
    ensures r.Pass? <==> check
    ensures r.Fail? ==> r.error.code == InvalidParType
    ensures r.Fail? ==> r.error.attributes == TypeAttributes(value, name, expected)
  {
    Check(InvalidParType, check, TypeAttributes(value, name, expected))
  }

  /** `Array.isArray(value)`. */
  predicate IsArray(value: Value) {
    value.Arr?
  }

  /** `isPlainObject(value)`: the model's plain objects are exactly the `Obj` values. */
  predicate IsPlainObject(value: Value) {
    value.Obj?
  }

  /** `validateTypePath(value, name)`: a path is a string or an array. */
  function TypePath(value: Value, name: string): (r: Outcome)
    ensures r.Pass? <==> value.Str? || value.Arr?
    ensures r.Fail? ==> r.error == Error(InvalidParType, TypeAttributes(value, name, "String or Array"))
  {
    Type(value, name, TypeOf(value) == "string" || IsArray(value), "String or Array")
  }

  /** `validateTypePlainObject(value, name)`: absent, or a plain object. */
  function TypePlainObject(value: Value, name: string): (r: Outcome)
    ensures r.Pass? <==> value.Undefined? || value.Obj?
    ensures r.Fail? ==> r.error == Error(InvalidParType, TypeAttributes(value, name, "Plain Object"))
  {
    Type(value, name, TypeOf(value) == "undefined" || IsPlainObject(value), "Plain Object")
  }

  /** Every defined value is present, falsy ones included. */
  lemma PresenceAcceptsFalsy(name: string)
    ensures Presence(Null, name) == Pass
    ensures Presence(Bool(false), name) == Pass
    ensures Presence(Num(0.0), name) == Pass
    ensures Presence(Str(""), name) == Pass
  {
  }

  /** Whether a type check passes depends on the flag alone, never on the value. */
  lemma TypeIgnoresValue(v1: Value, v2: Value, name: string, check: bool, expected: string)
    ensures Type(v1, name, check, expected).Pass? == Type(v2, name, check, expected).Pass?
  {
  }

  /** The two type checks disagree on `undefined` and agree on strings, arrays and plain objects in opposite ways. */
  lemma PathAndPlainObjectDiffer(name: string, s: string, items: seq<Value>, es: seq<(string, Value)>)
    ensures TypePath(Undefined, name).Fail? && TypePlainObject(Undefined, name).Pass?
    ensures TypePath(Str(s), name).Pass? && TypePlainObject(Str(s), name).Fail?
    ensures TypePath(Arr(items), name).Pass? && TypePlainObject(Arr(items), name).Fail?
    ensures TypePath(Obj(es), name).Fail? && TypePlainObject(Obj(es), name).Pass?
  {
  }
}
