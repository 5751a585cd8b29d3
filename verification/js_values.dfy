/** The JavaScript values the browser client handles: primitives, plain
    objects as ordered key/value lists, and `localStorage`. */
module JsValues {
  import opened Base
  import opened Strings

  /** A JavaScript primitive. Numbers are modelled as integers. */
  datatype JsValue = Undefined | Null | Bool(b: bool) | Num(n: int) | Str(s: string)

  /** ECMAScript ToBoolean: `undefined`, `null`, `false`, `0` and `''` are falsy. */
  predicate Truthy(v: JsValue) {
    match v
    case Undefined => false
    case Null => false
    case Bool(b) => b
    case Num(n) => n != 0
    case Str(s) => s != ""
  }

  /** `String(v)`. */
  function ToStr(v: JsValue): (r: string)
    ensures v.Str? ==> r == v.s
  {
    match v
    case Undefined => "undefined"
    case Null => "null"
    case Bool(b) => if b then "true" else "false"
    case Num(n) => IntToString(n)
    case Str(s) => s
  }

  /** A plain object: its own properties in enumeration order. */
  type Object = seq<(string, JsValue)>

  /** No property name occurs twice. */
  predicate DistinctKeys(o: Object) {
    forall i, j :: 0 <= i < j < |o| ==> o[i].0 != o[j].0
  }

  /** `Object.keys(o)`. */
  function Keys(o: Object): (ks: seq<string>)
    ensures |ks| == |o|
    ensures forall i :: 0 <= i < |o| ==> ks[i] == o[i].0
  {
    seq(|o|, i requires 0 <= i < |o| => o[i].0)
  }

  /** `o[k]`: the value of property `k`, `undefined` when absent. */
  function Get(o: Object, k: string): (v: JsValue)
    ensures (forall i :: 0 <= i < |o| ==> o[i].0 != k) ==> v == Undefined
  {
    if |o| == 0 then Undefined
    else if o[0].0 == k then o[0].1
    else Get(o[1..], k)
  }

  /** In an object with distinct keys, each property reads back its own value. */
  lemma {:induction false} GetAt(o: Object, i: nat)
    requires DistinctKeys(o) && i < |o|
    ensures Get(o, o[i].0) == o[i].1
  {
    if i > 0 {
      assert o[0].0 != o[i].0;
      assert o[1..][i - 1] == o[i];
      GetAt(o[1..], i - 1);
    }
  }

  /** `window.localStorage`: string keys to string values. */
  type Storage = map<string, string>

  /** `localStorage.getItem(k)`: the stored string, or `null`. */
  function GetItem(st: Storage, k: string): (r: Option<string>)
    ensures r.Some? <==> k in st
    ensures r.Some? ==> r.value == st[k]
  {
    if k in st then Some(st[k]) else None
  }
}
