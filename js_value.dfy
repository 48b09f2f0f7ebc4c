/**
 * JavaScript values as the modelled code sees them: the primitive kinds, arrays,
 * plain objects (own properties in insertion order) and other objects, with
 * `typeof`, truthiness and own-property reads and writes.
 */
module JsValue {
  import opened Strings

  datatype Value =
    | Undefined
    | Null
    | Bool(b: bool)
    | Num(x: real)
    /** A string, as a sequence of characters. */
    | Str(s: string)
    | Arr(items: seq<Value>)
    /** A plain object: its own enumerable properties, in insertion order. */
    | Obj(entries: seq<(string, Value)>)
    /** An object that is not plain: a date, a regular expression, a class instance. */
    | OtherObject
    | Function

  /** What `typeof v` answers. */
  function TypeOf(v: Value): string {
    match v
    case Undefined => "undefined"
    case Bool(_) => "boolean"
    case Num(_) => "number"
    case Str(_) => "string"
    case Function => "function"
    case _ => "object"
  }

  /** Plain objects report the type "object". */
  lemma ObjectIsObject(v: Value)
    requires v.Obj?
    ensures TypeOf(v) == "object"
  {
  }

  /** Whether `v` converts to `true` (`if (v)`, `!v`, `v && …`). */
  predicate Truthy(v: Value) {
    match v
    case Undefined => false
    case Null => false
    case Bool(b) => b
    case Num(x) => x != 0.0
    case Str(s) => s != ""
    case _ => true
  }

  /** The property names of an object, in insertion order (`Object.keys`). */
  function Keys(es: seq<(string, Value)>): (ks: seq<string>)
    ensures |ks| == |es|
    ensures forall i :: 0 <= i < |es| ==> ks[i] == es[i].0
  {
    if es == [] then [] else [es[0].0] + Keys(es[1..])
  }

  /** No property name occurs twice, as in every JavaScript object. */
  predicate WellKeyed(es: seq<(string, Value)>) {
    NoDup(Keys(es))
  }

  /** `o[k]` on own properties: the stored value, or `undefined`. */
  function Get(es: seq<(string, Value)>, k: string): (v: Value)
    ensures k !in Keys(es) ==> v == Undefined
    ensures forall i :: 0 <= i < |es| && es[i].0 == k && (forall j :: 0 <= j < i ==> es[j].0 != k) ==> v == es[i].1
  {
    if es == [] then Undefined
    else if es[0].0 == k then es[0].1
    else Get(es[1..], k)
  }

  /** `o[k] = v`: an existing property keeps its place, a new one goes last. */
  function Set(es: seq<(string, Value)>, k: string, v: Value): (r: seq<(string, Value)>)
    ensures Get(r, k) == v
    ensures forall k' :: k' != k ==> Get(r, k') == Get(es, k')
    ensures k in Keys(es) ==> Keys(r) == Keys(es)
    ensures k !in Keys(es) ==> Keys(r) == Keys(es) + [k]
  {
    if es == [] then [(k, v)]
    else if es[0].0 == k then
      var r := [(k, v)] + es[1..];
      assert r[1..] == es[1..];
      r
    else
      var t := Set(es[1..], k, v);
      var r := [es[0]] + t;
      assert r[1..] == t;
      assert Keys(r) == [es[0].0] + Keys(t);
      r
  }

  /** `delete o[k]`. */
  function Delete(es: seq<(string, Value)>, k: string): (r: seq<(string, Value)>)
    requires WellKeyed(es)
    ensures WellKeyed(r)
    ensures Get(r, k) == Undefined && k !in Keys(r)
    ensures forall k' :: k' != k ==> Get(r, k') == Get(es, k')
    ensures forall k' :: k' in Keys(r) <==> k' in Keys(es) && k' != k
  {
    if es == [] then []
    else if es[0].0 == k then
      assert forall j :: 0 <= j < |es| - 1 ==> Keys(es[1..])[j] == Keys(es)[j + 1];
      es[1..]
    else
      assert forall j :: 0 <= j < |es| - 1 ==> Keys(es[1..])[j] == Keys(es)[j + 1];
      var t := Delete(es[1..], k);
      assert es[0].0 !in Keys(es[1..]);
      [es[0]] + t
  }

  lemma {:induction false} SetWellKeyed(es: seq<(string, Value)>, k: string, v: Value)
    requires WellKeyed(es)
    ensures WellKeyed(Set(es, k, v))
  {
    var r := Set(es, k, v);
    if k !in Keys(es) {
      assert Keys(r) == Keys(es) + [k];
    }
  }

  /** A second write to the same property overrides the first. */
  lemma {:induction false} SetTwice(es: seq<(string, Value)>, k: string, a: Value, b: Value)
    ensures Set(Set(es, k, a), k, b) == Set(es, k, b)
    decreases |es|
  {
    if es != [] && es[0].0 != k {
      SetTwice(es[1..], k, a, b);
      assert ([es[0]] + Set(es[1..], k, a))[1..] == Set(es[1..], k, a);
    }
  }
}
