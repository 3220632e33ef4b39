/**
 The run-time values the library inspects: the `JSONValue` shape of
 `src/types/APIRequest.ts` (string, number, boolean, null, undefined, array,
 object) plus one case for the non-JSON values a caller may still pass in.
 */
module JsValues {

  /** A JavaScript value as seen by `typeof`, `Array.isArray` and truthiness.
      Numbers are integers (NaN, infinities and fractions are not modelled).
      `Other` stands for a function or a symbol: neither a JSON value nor an
      object, and always truthy. */
  datatype Value =
    | Str(s: string)
    | Num(n: int)
    | Bool(b: bool)
    | Null
    | Undefined
    | Arr(elems: seq<Value>)
    | Obj(fields: seq<Field>)
    | Other(tag: nat)

  /** One own enumerable property of an object, in insertion order. */
  datatype Field = Field(key: string, val: Value)

  /** The results of the `typeof` operator that the modelled values can produce. */
  datatype JsType = TString | TNumber | TBoolean | TUndefined | TObject | TFunctionOrSymbol

  /** `typeof v`; note that `typeof null` and `typeof []` are both "object". */
  function TypeOf(v: Value): JsType
  {
    match v
    case Str(_) => TString
    case Num(_) => TNumber
    case Bool(_) => TBoolean
    case Undefined => TUndefined
    case Null => TObject
    case Arr(_) => TObject
    case Obj(_) => TObject
    case Other(_) => TFunctionOrSymbol
  }

  /** `Array.isArray(v)`. */
  predicate IsArray(v: Value)
  {
    v.Arr?
  }

  /** JavaScript truthiness: `""`, `0`, `false`, `null` and `undefined` are
      falsy; every array, object, function and symbol is truthy. */
  predicate Truthy(v: Value)
  {
    match v
    case Str(s) => s != ""
    case Num(n) => n != 0
    case Bool(b) => b
    case Null => false
    case Undefined => false
    case Arr(_) => true
    case Obj(_) => true
    case Other(_) => true
  }

  /** True when some property of the object is named `key`. */
  predicate HasKey(fields: seq<Field>, key: string)
  {
    exists i :: 0 <= i < |fields| && fields[i].key == key
  }

  /** Property access `o[key]` on an object with the given properties: the
      value of the first property named `key`, or `undefined` when there is
      none (inherited properties are not modelled). */
  function GetField(fields: seq<Field>, key: string): (r: Value)
    ensures !HasKey(fields, key) ==> r == Undefined
    ensures HasKey(fields, key) ==>
      exists i :: 0 <= i < |fields| && fields[i].key == key && r == fields[i].val
                  && forall j :: 0 <= j < i ==> fields[j].key != key
  {
    if |fields| == 0 then Undefined
    else if fields[0].key == key then fields[0].val
    else
      var r := GetField(fields[1..], key);
      assert HasKey(fields, key) ==> HasKey(fields[1..], key) by {
        if HasKey(fields, key) {
          var i :| 0 <= i < |fields| && fields[i].key == key;
          assert i != 0 && fields[1..][i - 1].key == key;
        }
      }
      assert HasKey(fields, key) ==>
        exists i :: 0 <= i < |fields| && fields[i].key == key && r == fields[i].val
                    && forall j :: 0 <= j < i ==> fields[j].key != key by {
        if HasKey(fields, key) {
          var i :| 0 <= i < |fields| - 1 && fields[1..][i].key == key && r == fields[1..][i].val
                   && forall j :: 0 <= j < i ==> fields[1..][j].key != key;
          assert fields[i + 1].key == key && r == fields[i + 1].val;
          assert forall j :: 0 <= j < i + 1 ==> fields[j].key != key by {
            forall j | 0 <= j < i + 1 ensures fields[j].key != key {
              if j > 0 { assert fields[j] == fields[1..][j - 1]; }
            }
          }
        }
      }
      r
  }

  /** Reading the first property named `key`, wherever it sits. */
  lemma {:induction false} GetFieldAt(fields: seq<Field>, i: nat, key: string)
    requires i < |fields| && fields[i].key == key
    requires forall j :: 0 <= j < i ==> fields[j].key != key
    ensures GetField(fields, key) == fields[i].val
  {
    if i > 0 {
      assert fields[1..][i - 1] == fields[i];
      assert forall j :: 0 <= j < i - 1 ==> fields[1..][j] == fields[j + 1];
      GetFieldAt(fields[1..], i - 1, key);
    }
  }
}
