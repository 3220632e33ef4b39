/**
 The decoding primitives of `src/decoder.ts`: total functions that narrow an
 untyped value to a typed one and answer `null` (or a reserved sentinel
 string) when they cannot.
 */
module Decoder {
  import opened JsValues

  /** The reserved string that marks "this field could not be decoded". */
  const ErrorDelimiter: string := "<!!error!!>"

  /** `decodeString`: the value itself when it is a string, `null` otherwise. */
  function DecodeString(v: Value): (r: Value)
    ensures r != Null <==> TypeOf(v) == TString
    ensures r != Null ==> r == v
  {
    if v.Str? then v else Null
  }

  /** `_decodeString`: like `DecodeString`, but answers the reserved
      `ErrorDelimiter` instead of `null`, so its result is always a string. */
  function DecodeStringOrError(v: Value): (r: string)
    ensures TypeOf(v) == TString ==> Str(r) == v
    ensures TypeOf(v) != TString ==> r == ErrorDelimiter
  {
    match v
    case Str(s) => s
    case _ => ErrorDelimiter
  }

  /** `decodeNumber`: the value itself when it is a number, `null` otherwise. */
  function DecodeNumber(v: Value): (r: Value)
    ensures r != Null <==> TypeOf(v) == TNumber
    ensures r != Null ==> r == v
  {
    if v.Num? then v else Null
  }

  /** `decodeBoolean`: the value itself when it is a boolean, `null` otherwise. */
  function DecodeBoolean(v: Value): (r: Value)
    ensures r != Null <==> TypeOf(v) == TBoolean
    ensures r != Null ==> r == v
  {
    if v.Bool? then v else Null
  }

  /** `_decodeString(v)` is `decodeString(v) ?? errorDelimiter`. */
  lemma DecodeStringOrErrorIsFallback(v: Value)
    ensures DecodeStringOrError(v) == (if DecodeString(v) == Null then ErrorDelimiter else DecodeString(v).s)
  {
  }

  /** The sentinel is not distinguishable from a genuine string that happens to
      equal it: both a failed decode and the string "<!!error!!>" give the same
      answer, so the sentinel must never be treated as data. */
  lemma DecodeStringOrErrorConflatesSentinel(v: Value)
    requires TypeOf(v) != TString
    ensures DecodeStringOrError(v) == DecodeStringOrError(Str(ErrorDelimiter))
  {
  }

  /** Narrowing is idempotent: decoding an already decoded value changes nothing. */
  lemma ScalarDecodersIdempotent(v: Value)
    ensures DecodeString(DecodeString(v)) == DecodeString(v)
    ensures DecodeNumber(DecodeNumber(v)) == DecodeNumber(v)
    ensures DecodeBoolean(DecodeBoolean(v)) == DecodeBoolean(v)
  {
  }

  /** `castArray`: applies `converter` to every element, in order. */
  function CastArray<A, B>(fromArray: seq<A>, converter: A -> B): (r: seq<B>)
    ensures |r| == |fromArray|
    ensures forall i :: 0 <= i < |fromArray| ==> r[i] == converter(fromArray[i])
  {
    if |fromArray| == 0 then []
    else [converter(fromArray[0])] + CastArray(fromArray[1..], converter)
  }

  /** `castArray` distributes over concatenation. */
  lemma CastArrayAppend<A, B>(xs: seq<A>, ys: seq<A>, converter: A -> B)
    ensures CastArray(xs + ys, converter) == CastArray(xs, converter) + CastArray(ys, converter)
  {
  }

  /** The body of the `forEach` in `decodeArray`: decode every element and keep
      the decoded results that are truthy, in order. */
  function TruthyImages(xs: seq<Value>, decoder: Value -> Value): (r: seq<Value>)
    ensures |r| <= |xs|
    ensures forall i :: 0 <= i < |r| ==> Truthy(r[i])
    ensures forall i :: 0 <= i < |r| ==> exists j :: 0 <= j < |xs| && r[i] == decoder(xs[j])
    ensures forall j :: 0 <= j < |xs| && Truthy(decoder(xs[j])) ==> decoder(xs[j]) in r
  {
    if |xs| == 0 then []
    else
      var d := decoder(xs[0]);
      var rest := TruthyImages(xs[1..], decoder);
      assert forall j :: 1 <= j < |xs| ==> xs[j] == xs[1..][j - 1];
      if Truthy(d) then [d] + rest else rest
  }

  /** `decodeArray`: `null` for a non-array; otherwise the truthy decoded
      elements. Falsy successes such as `0`, `""` and `false` are dropped along
      with the `null` failures. */
  function DecodeArray(v: Value, decoder: Value -> Value): (r: Value)
    ensures r == Null <==> !IsArray(v)
    ensures r != Null ==> r.Arr? && |r.elems| <= |v.elems|
    ensures r != Null ==> forall i :: 0 <= i < |r.elems| ==> Truthy(r.elems[i])
    ensures r != Null ==>
      forall i :: 0 <= i < |r.elems| ==> exists j :: 0 <= j < |v.elems| && r.elems[i] == decoder(v.elems[j])
    ensures r != Null ==>
      forall j :: 0 <= j < |v.elems| ==> (Truthy(decoder(v.elems[j])) ==> decoder(v.elems[j]) in r.elems)
  {
    if IsArray(v) then Arr(TruthyImages(v.elems, decoder)) else Null
  }

  /** Order preservation: decoding a concatenation is the concatenation of the
      decodes, so every kept element stays in its relative position. */
  lemma {:induction false} TruthyImagesAppend(xs: seq<Value>, ys: seq<Value>, decoder: Value -> Value)
    ensures TruthyImages(xs + ys, decoder) == TruthyImages(xs, decoder) + TruthyImages(ys, decoder)
  {
    if |xs| == 0 {
      assert xs + ys == ys;
    } else {
      assert (xs + ys)[1..] == xs[1..] + ys;
      TruthyImagesAppend(xs[1..], ys, decoder);
    }
  }

  /** A single element is kept exactly when its decoded value is truthy. */
  lemma TruthyImagesSingle(x: Value, decoder: Value -> Value)
    ensures TruthyImages([x], decoder) == if Truthy(decoder(x)) then [decoder(x)] else []
  {
  }

  /** Nothing is lost exactly when every decoded element is truthy. */
  lemma {:induction false} TruthyImagesLossless(xs: seq<Value>, decoder: Value -> Value)
    ensures (|TruthyImages(xs, decoder)| == |xs|) <==> (forall j :: 0 <= j < |xs| ==> Truthy(decoder(xs[j])))
  {
    if |xs| > 0 {
      var rest := TruthyImages(xs[1..], decoder);
      TruthyImagesLossless(xs[1..], decoder);
      assert forall j :: 1 <= j < |xs| ==> xs[j] == xs[1..][j - 1];
      if Truthy(decoder(xs[0])) {
        assert TruthyImages(xs, decoder) == [decoder(xs[0])] + rest;
        assert (forall j :: 0 <= j < |xs| ==> Truthy(decoder(xs[j])))
           <==> (forall j :: 0 <= j < |xs| - 1 ==> Truthy(decoder(xs[1..][j])));
      } else {
        assert TruthyImages(xs, decoder) == rest;
      }
    }
  }

  /** When every decoded element is truthy, `decodeArray` is the element-wise
      map `castArray` would give. */
  lemma {:induction false} TruthyImagesAllTruthy(xs: seq<Value>, decoder: Value -> Value)
    requires forall j :: 0 <= j < |xs| ==> Truthy(decoder(xs[j]))
    ensures TruthyImages(xs, decoder) == CastArray(xs, decoder)
  {
    if |xs| > 0 {
      assert forall j :: 1 <= j < |xs| ==> xs[j] == xs[1..][j - 1];
      TruthyImagesAllTruthy(xs[1..], decoder);
      assert TruthyImages(xs, decoder) == [decoder(xs[0])] + TruthyImages(xs[1..], decoder);
      assert CastArray(xs, decoder) == [decoder(xs[0])] + CastArray(xs[1..], decoder);
    }
  }

  /** Decoding `[1, "a", 2]` with `decodeNumber` silently drops the string. */
  lemma DecodeArrayDropsFailures()
    ensures DecodeArray(Arr([Num(1), Str("a"), Num(2)]), DecodeNumber) == Arr([Num(1), Num(2)])
  {
  }

  /** The filter tests truthiness, not `null`: a successfully decoded `0`, `""`
      or `false` is dropped too. */
  lemma DecodeArrayDropsFalsySuccesses()
    ensures DecodeArray(Arr([Num(0), Num(7)]), DecodeNumber) == Arr([Num(7)])
    ensures DecodeArray(Arr([Str(""), Str("a")]), DecodeString) == Arr([Str("a")])
    ensures DecodeArray(Arr([Bool(false), Bool(true)]), DecodeBoolean) == Arr([Bool(true)])
  {
  }

  /** The property test of `noErrorOrNullValues` for one key: it passes when it
      holds `null` and is declared nullable, when it holds a string other than
      `ErrorDelimiter`, or when it holds any other non-null value. */
  predicate KeyPasses(f: Field, nullableKeys: seq<string>)
  {
    || (f.val == Null && f.key in nullableKeys)
    || (f.val.Str? && f.val.s != ErrorDelimiter)
    || (!f.val.Str? && f.val != Null)
  }

  /** Every key of the object passes. */
  predicate AllKeysPass(value: seq<Field>, nullableKeys: seq<string>)
  {
    forall i :: 0 <= i < |value| ==> KeyPasses(value[i], nullableKeys)
  }

  /** `noErrorOrNullValues`: walks the keys in order, tracking separately
      whether an `ErrorDelimiter` string and whether a non-exempt `null` has
      been seen; true exactly when every key passes. */
  method NoErrorOrNullValues(value: seq<Field>, nullableKeys: seq<string>) returns (r: bool)
    ensures r <==> AllKeysPass(value, nullableKeys)
  {
    var noErrorsPresent := true;
    var noNullPresent := true;
    var i := 0;
    while i < |value|
      invariant 0 <= i <= |value|
      invariant noErrorsPresent <==> forall j :: 0 <= j < i ==> value[j].val != Str(ErrorDelimiter)
      invariant noNullPresent <==>
        forall j :: 0 <= j < i ==> !(value[j].val == Null && value[j].key !in nullableKeys)
    {
      var key := value[i].key;
      var v := value[i].val;
      if v == Null && key in nullableKeys {
      } else if v.Str? {
        noErrorsPresent := noErrorsPresent && v.s != ErrorDelimiter;
      } else {
        noNullPresent := noNullPresent && v != Null;
      }
      i := i + 1;
    }
    r := noErrorsPresent && noNullPresent;
  }

  /** `noErrorOrNullValues` with the default, empty `nullableKeys`: no key may
      hold `null` or the `ErrorDelimiter` string. */
  method NoErrorOrNullValuesDefault(value: seq<Field>) returns (r: bool)
    ensures r <==> forall i :: 0 <= i < |value| ==> value[i].val != Null && value[i].val != Str(ErrorDelimiter)
  {
    r := NoErrorOrNullValues(value, []);
  }

  /** An empty object passes. */
  lemma EmptyObjectPasses(nullableKeys: seq<string>)
    ensures AllKeysPass([], nullableKeys)
  {
  }

  /** Declaring a key nullable exempts only `null`: the `ErrorDelimiter`
      string under that key still makes the check fail. */
  lemma NullableExemptsOnlyNull(value: seq<Field>, nullableKeys: seq<string>, i: nat)
    requires i < |value| && value[i].key in nullableKeys
    ensures value[i].val == Str(ErrorDelimiter) ==> !AllKeysPass(value, nullableKeys)
    ensures value[i].val == Null ==> KeyPasses(value[i], nullableKeys)
  {
  }

  /** The order in which the keys are visited does not matter. */
  lemma KeyOrderIrrelevant(a: seq<Field>, b: seq<Field>, nullableKeys: seq<string>)
    requires multiset(a) == multiset(b)
    ensures AllKeysPass(a, nullableKeys) <==> AllKeysPass(b, nullableKeys)
  {
    forall i | 0 <= i < |a| ensures a[i] in b {
      assert a[i] in multiset(a);
    }
    forall i | 0 <= i < |b| ensures b[i] in a {
      assert b[i] in multiset(b);
    }
  }

  /** `isJSON`: `typeof v === 'object' && v !== null && !Array.isArray(v)`. */
  predicate IsJSON(v: Value)
    ensures IsJSON(v) <==> TypeOf(v) == TObject && v != Null && !IsArray(v)
  {
    v.Obj?
  }
}
