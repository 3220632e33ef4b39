# typesafe-api-call in Dafny

A model of the logic at the heart of `typesafe-api-call`, with proofs about it:

- **Decoders** of `src/decoder.ts`: the scalar type guards, the sentinel string decoder, the lossy array decoder, the element-wise array map, the object validator and the plain-object test.
- **`APICaller.call`** of `src/APICaller.ts`: a pure function from abstract inputs to an event trace and an outcome. The inputs are the start and end hooks (each may throw), a transport result, a body that may fail to read, and the two decoders. The model also covers the two hook-registration functions, as updates of a registry value.
- **Generated object decoders** `decodePost` and `decodeCreatePostResponse` of `examples/generated/types.ts`.
- **Version-bump rule** of `scripts/publish.js`: reading the `version=` argument, then the patch/minor/major switch on a `major.minor.patch` string.

Modules and files:

- `options.dfy`, module `Options`: the optional value.
- `values.dfy`, module `JsValues`: JavaScript values as the library sees them. It defines `typeof`, `Array.isArray`, truthiness, and property access on an object held as its own properties in insertion order.
- `decoder.dfy`, module `Decoder`: the decoders of `src/decoder.ts`.
- `api_types.dfy`, module `ApiTypes`: the request, `APISuccess`/`APIFailure`, and a callback's completion (normal return or throw).
- `api_caller.dfy`, module `ApiCaller`: the call pipeline, the hook lists and registration.
- `generated_types.dfy`, module `GeneratedTypes`: the generated decoders and how they compose with `decodeArray` and with a call.
- `text.dfy`, module `Text`: `split` on one character and its inverse `join`, decimal rendering of naturals, and `parseInt` on decimal text.
- `publish.dfy`, module `Publish`: the version rule.

How each part is modelled:

- **Callbacks.** A callback that can throw is a Dafny function returning `Completion`: `Normal(v)` or `Thrown(e)`.
- **The call.** `ApiCaller.Call` returns a `Run` with three parts: the trace of events, the `result` handed to the end hooks and returned, and the value an end hook threw, if any.
  - Each event records one step: a start hook ran, the transport was called, the body was read, the success decoder ran, the error decoder ran, or an end hook ran.
  - The `try` block is layered as `TryBlock`, `InvokeTransport`, `ReadBody` and `DecodeBody`, one function per step of the source.
- **Hook lists.** The process-wide static arrays are the fields of a `Registry` value.
- **Exceptions.** `String(e)` is the caller-supplied function `stringify`.
- **Transport.** The transport is a function of the request. It answers either a response and the measured elapsed time, or a thrown value.

Behaviour of the code worth knowing, all of it modelled as written:

- **Hook registration.** A hook is appended only when its identity is already present (see Findings).
- **Default error decoder.** It is `(e) => e`.
- **Exceptions from end hooks.** They escape `call`, because end hooks run outside the `try`.

## Model

| member | source | states |
|---|---|---|
| JsValues.GetField | examples/generated/types.ts:12-15 | `o[key]` is the value of the first property with that key, or `undefined` when no property has it |
| JsValues.GetFieldAt | examples/generated/types.ts:12-15 | the property read is the first one carrying the key, wherever it sits |
| Decoder.DecodeString | src/decoder.ts:9-14 | the answer is non-null exactly when `typeof v` is "string", and then it is `v` itself |
| Decoder.DecodeStringOrError | src/decoder.ts:21-26 | the answer is always a string: the input when `typeof v` is "string", the error delimiter otherwise |
| Decoder.DecodeNumber | src/decoder.ts:33-38 | the answer is non-null exactly when `typeof v` is "number", and then it is `v` itself |
| Decoder.DecodeBoolean | src/decoder.ts:45-50 | the answer is non-null exactly when `typeof v` is "boolean", and then it is `v` itself |
| Decoder.DecodeStringOrErrorIsFallback | src/decoder.ts:9-26 | `_decodeString(v)` equals `decodeString(v) ?? errorDelimiter` for every value |
| Decoder.DecodeStringOrErrorConflatesSentinel | src/decoder.ts:5-7 | a failed string decode cannot be told apart from the genuine string "<!!error!!>" |
| Decoder.ScalarDecodersIdempotent | src/decoder.ts:9-50 | decoding an already decoded value with the same scalar guard changes nothing |
| Decoder.CastArray | src/decoder.ts:75-80 | same length as the input, and element `i` is the converter applied to input element `i` |
| Decoder.CastArrayAppend | src/decoder.ts:75-80 | the element-wise map distributes over concatenation |
| Decoder.TruthyImages | src/decoder.ts:63-70 | every kept value is truthy and is the decoder's image of some input element; every truthy image is kept; never longer than the input |
| Decoder.DecodeArray | src/decoder.ts:58-73 | `null` exactly when the input is not an array; otherwise an array no longer than the input. Each kept value is truthy and is the decoder's output for some input element, and every truthy decoder output is kept |
| Decoder.TruthyImagesAppend | src/decoder.ts:64-69 | decoding a concatenation is the concatenation of the decodes, so kept elements keep their relative order |
| Decoder.TruthyImagesSingle | src/decoder.ts:65-68 | one element is kept exactly when its decoded value is truthy |
| Decoder.TruthyImagesLossless | src/decoder.ts:64-69 | nothing is dropped exactly when every decoded element is truthy |
| Decoder.TruthyImagesAllTruthy | src/decoder.ts:58-80 | when every decoded element is truthy, `decodeArray` agrees with `castArray` element for element |
| Decoder.DecodeArrayDropsFailures | src/decoder.ts:64-69 | decoding `[1, "a", 2]` as numbers gives `[1, 2]`: the failure is dropped silently |
| Decoder.DecodeArrayDropsFalsySuccesses | src/decoder.ts:66-68 | successfully decoded `0`, `""` and `false` are dropped like failures, because the filter tests truthiness |
| Decoder.NoErrorOrNullValues | src/decoder.ts:98-114 | the answer is true exactly when every key passes. A key passes when it holds `null` and is nullable, holds a string other than the delimiter, or holds another non-null value |
| Decoder.NoErrorOrNullValuesDefault | src/decoder.ts:98-101 | with the default empty `nullableKeys`, true exactly when no key holds `null` or the delimiter |
| Decoder.EmptyObjectPasses | src/decoder.ts:102-113 | an object without keys passes |
| Decoder.NullableExemptsOnlyNull | src/decoder.ts:105-108 | a nullable key is exempt only for `null`: holding the delimiter still fails the object |
| Decoder.KeyOrderIrrelevant | src/decoder.ts:104-113 | two objects with the same properties in any order get the same answer |
| Decoder.IsJSON | src/decoder.ts:116-118 | true exactly when `typeof v` is "object", `v` is not `null` and `v` is not an array |
| ApiCaller.RunHooks | src/APICaller.ts:34-36 | hooks run in array order, each recorded once. Every hook before the last recorded one returned. Nothing escapes exactly when all return; otherwise the last recorded hook threw the escaping value |
| ApiCaller.RunHooksThrowsAt | src/APICaller.ts:34-36 | when hook `k` is the first to throw, the loop stops right after it and its exception escapes |
| ApiCaller.DecodeBody | src/APICaller.ts:41-59 | the error decoder runs exactly when the success decoder yields `null`. A non-null decode completes with `APISuccess(status, statusText, decoded, elapsed)`; a `null` decode completes with `APIFailure(fixed message, status, error decoder's answer, elapsed)`; a throw from either decoder is what the step raises |
| ApiCaller.ReadBody | src/APICaller.ts:40-41 | the body is read first; when reading throws, nothing else runs and the exception is what the step raises |
| ApiCaller.InvokeTransport | src/APICaller.ts:37-41 | the transport is invoked first; when it throws, nothing after it runs; otherwise only body and decoder steps follow |
| ApiCaller.TryBlock | src/APICaller.ts:33-60 | the `try` block runs no end hook and invokes the transport at most once. The transport comes right after all start hooks, in order, and only when every start hook returned |
| ApiCaller.ErrorDecoderOrDefault | src/APICaller.ts:29 | the caller's error decoder when one is given; otherwise a decoder that returns every value unchanged and never throws |
| ApiCaller.ExceptionFailure | src/APICaller.ts:61 | a failure with code -1, `null` error response and time 0, whose message is the fixed prefix followed by `String(e)` |
| ApiCaller.ExceptionFailureKeepsText | src/APICaller.ts:61 | exceptions with different texts give different failures: the text can be read back from the message |
| ApiCaller.Call | src/APICaller.ts:26-68 | nothing escapes exactly when every end hook returns, and every end-hook event carries the request and the very result the call returns |
| ApiCaller.CallSplits | src/APICaller.ts:26-68 | a call's trace is the `try` block's trace followed only by end-hook events. The result is the block's outcome, or the collapsed exception when the block threw |
| ApiCaller.TransportAfterStartHooks | src/APICaller.ts:34-38 | across a whole call, the transport runs at most once, with the request, after every start hook has run in order and returned |
| ApiCaller.TryBlockAfterHooks | src/APICaller.ts:33-41 | when every start hook returns, the rest of the `try` block is the transport step and what follows it |
| ApiCaller.CallSuccess | src/APICaller.ts:41-49 | a non-null decode (`undefined` included) gives `APISuccess(status, statusText, decoded, elapsed)`, and the error decoder never runs |
| ApiCaller.CallDecodeFailure | src/APICaller.ts:50-58 | a `null` decode gives `APIFailure` with the fixed message, the status as code, the error decoder's answer on the raw body, and the measured time |
| ApiCaller.CallDefaultErrorDecoderKeepsRaw | src/APICaller.ts:29 | with the default error decoder, the failure's error response is the raw body itself |
| ApiCaller.CallStartHookThrows | src/APICaller.ts:33-63 | a throwing start hook `k` gives the `-1` exception failure with time 0; no later start hook runs and the transport never runs |
| ApiCaller.CallTransportThrows | src/APICaller.ts:37-63 | a throwing transport gives the exception failure; the body is never read and no decoder runs |
| ApiCaller.CallBodyReadThrows | src/APICaller.ts:40-63 | a failing body read gives the exception failure and no decoder runs |
| ApiCaller.CallResponseDecoderThrows | src/APICaller.ts:41-63 | a throwing success decoder gives the exception failure and the error decoder never runs |
| ApiCaller.CallErrorDecoderThrows | src/APICaller.ts:51-63 | a throwing error decoder gives the exception failure |
| ApiCaller.CallResultShape | src/APICaller.ts:37-63 | every result is either the collapsed exception (code -1, time 0) or, after the transport answered, a success or decode failure carrying the response status and measured time |
| ApiCaller.CallEndsWithEndHooks | src/APICaller.ts:64-67 | a call's trace is the `try` block's trace followed by the end hooks' run, and what escapes is what the end hooks threw |
| ApiCaller.CallEndHooksAllReturn | src/APICaller.ts:64-67 | nothing escapes exactly when every end hook returns. Then each end hook runs once, in order, last, with the request and the very result returned |
| ApiCaller.CallEndHookThrows | src/APICaller.ts:64-67 | when end hook `k` is the first to throw, its exception escapes the call. The end hooks up to `k` ran in order with the result, and no later one runs |
| ApiCaller.FindHook | src/APICaller.ts:71 | `find` by identity answers the first hook of the list with that identity, and answers nothing exactly when no hook has it |
| ApiCaller.RegisterStartHook | src/APICaller.ts:70-74 | as written, appends the hook when its identity is ALREADY present and otherwise changes nothing; end hooks untouched |
| ApiCaller.RegisterEndHook | src/APICaller.ts:76-80 | the same rule on the end hooks; start hooks untouched |
| ApiCaller.RegistryStaysEmpty | src/APICaller.ts:13-14 | starting from the initial empty lists, any sequence of registrations leaves both lists empty |
| ApiCaller.CallAfterRegistrationsRunsNoHooks | src/APICaller.ts:64-80 | after any registrations from the initial state, a call runs no start or end hook and nothing escapes it |
| ApiCaller.RegisterStartHookIfNew | src/APICaller.ts:70-74 | intended rule: appends exactly when the identity is absent; end hooks untouched |
| ApiCaller.RegisterEndHookIfNew | src/APICaller.ts:76-80 | intended rule on the end hooks; start hooks untouched |
| ApiCaller.RegisterAllIfNewKeepsIdsDistinct | src/APICaller.ts:70-80 | under the intended rule, identities stay unique in both lists and every registered identity is present |
| ApiCaller.RegisterAllIfNewGrows | src/APICaller.ts:70-80 | under the intended rule, registration only appends: the old lists are prefixes of the new ones |
| ApiCaller.RegisterTwiceIfNewKeepsOne | src/APICaller.ts:70-74 | under the intended rule, registering one identity twice keeps only the first hook |
| GeneratedTypes.DecodePost | examples/generated/types.ts:10-34 | `null` for a non-object. For an object, a post exactly when `userId` and `id` are numbers and `title` and `body` are strings; then each field equals the input's |
| GeneratedTypes.DecodePostRoundTrip | examples/generated/types.ts:26-31 | decoding a post's object form gives the same post back |
| GeneratedTypes.DecodePostIgnoresExtraKeys | examples/generated/types.ts:12-15 | keys other than the four, after them, do not change the decoded post |
| GeneratedTypes.DecodePostAcceptsFalsyFields | examples/generated/types.ts:17-22 | zero numbers and empty strings are accepted, because the checks are `=== null` |
| GeneratedTypes.DecodePostMissingFieldFails | examples/generated/types.ts:17-24 | removing any one of the four fields makes the decode fail |
| GeneratedTypes.DecodePostValue | examples/generated/types.ts:10-34 | the decoded post as a plain object, or `null` on failure; the object decodes to the same post |
| GeneratedTypes.DecodePostValueTruthy | examples/generated/types.ts:10-34 | the decoder's answer is truthy exactly when decoding succeeds |
| GeneratedTypes.DecodePostsKeepsDecodable | src/decoder.ts:58-73 | `decodeArray` with `decodePost` keeps exactly the elements that decode as posts, in order, each decoded |
| GeneratedTypes.DecodeCreatePostResponse | examples/generated/types.ts:40-55 | `{id}` exactly when the input is an object with a numeric `id`, and then `id` is the input's value |
| GeneratedTypes.PostDecodesAsCreatePostResponse | examples/generated/types.ts:40-55 | a post's object form also decodes as a creation response with the post's id |
| GeneratedTypes.CallDecodesPost | src/APICaller.ts:33-49 | when every start hook returns, a call whose success decoder is `decodePost` and whose body is a post's object form succeeds with that post, the status and the measured time, whatever the end hooks do |
| Text.Split | scripts/publish.js:19 | `split` on one character gives at least one piece, and no piece contains the separator |
| Text.SplitFirstPieces | scripts/publish.js:19 | the first piece is the text before the first separator; a second piece exists exactly when there is a separator, and runs to the next one |
| Text.JoinSplit | scripts/publish.js:19 | joining the pieces of a split restores the text |
| Text.SplitPrefix | scripts/publish.js:19 | text without a separator glues onto the first piece of what follows |
| Text.SplitJoin | scripts/publish.js:31-32 | splitting a join of separator-free pieces gives the pieces back |
| Text.ShowNat | scripts/publish.js:31-32 | the decimal rendering of `n` is a numeral whose value is `n`, with no leading zero unless `n` is 0 |
| Text.LeadingDigits | scripts/publish.js:31 | the longest prefix made of digits |
| Text.ParseInt | scripts/publish.js:31 | NaN exactly when the text is empty or does not start with a digit; otherwise the value of the leading digits, so a numeral parses to its value |
| Text.LeadingDigitsBeforeSuffix | scripts/publish.js:31 | digits followed by text that does not start with a digit are exactly the leading digits |
| Text.ParseIntIgnoresSuffix | scripts/publish.js:31 | a numeral followed by non-digit text, such as `3-beta`, parses to the numeral's value |
| Text.ParseShowNat | scripts/publish.js:31-32 | parsing the decimal rendering of `n` gives `n` |
| Publish.ArgKey | scripts/publish.js:19-20 | the key is the separator-free prefix of the argument that ends at its first `=` or at its end |
| Publish.ArgValue | scripts/publish.js:19-22 | `undefined` exactly when the argument has no `=`; otherwise the separator-free text right after the first `=`, up to the next `=` or the end |
| Publish.ArgumentParts | scripts/publish.js:19-22 | the key is the text before the first `=`; the value is the text up to the next `=`; without `=` the value is `undefined` |
| Publish.RequestedVersion | scripts/publish.js:14-24 | `null` exactly when no argument has key `version`; otherwise the value of the last such argument |
| Publish.LastVersionArgUnique | scripts/publish.js:17-24 | the arguments determine the requested version uniquely |
| Publish.OneVersionArgument | scripts/publish.js:17-24 | a single argument `version=<value>` requests exactly that value |
| Publish.Increment | scripts/publish.js:31 | on a numeral, the decimal rendering of its value plus one; "NaN" exactly when the text does not start with a digit |
| Publish.IncrementIgnoresSuffix | scripts/publish.js:31 | a component like `3-beta` of a prerelease version increments its leading numeral and drops the rest |
| Publish.Component | scripts/publish.js:31-41 | a component never contains a dot, a missing one reads as "undefined", and the three components of a well-formed version are numerals |
| Publish.Dotted | scripts/publish.js:32-42 | the template has the pieces' lengths plus two dots, and splitting it on dots gives dot-free pieces back |
| Publish.BumpVersion | scripts/publish.js:26-52 | exit 1 exactly when the request is none of patch, minor, major or `null`; a `null` request keeps the version |
| Publish.ComponentsOfVersion | scripts/publish.js:31-32 | splitting `major.minor.patch` on dots gives the three numerals back |
| Publish.VersionAsDotted | scripts/publish.js:31-32 | a well-formed version is the dotted template of its own three components |
| Publish.BumpWellFormed | scripts/publish.js:30-44 | patch gives `major.minor.(patch+1)`, minor gives `major.(minor+1).0`, major gives `(major+1).0.0`; untouched parts are copied verbatim |
| Publish.BumpPatchKeepsWellFormed | scripts/publish.js:30-34 | a patch bump of a well-formed version is well-formed, with the patch number one higher and the others unchanged |
| Publish.BumpMinorKeepsWellFormed | scripts/publish.js:35-39 | a minor bump is well-formed, with the minor number one higher, patch 0 and major unchanged |
| Publish.BumpMajorKeepsWellFormed | scripts/publish.js:40-44 | a major bump is well-formed, with the major number one higher and the others 0 |
| Publish.BumpKeepsWellFormed | scripts/publish.js:29-44 | a bump of a well-formed version is well-formed, and its numbers are the old ones with the chosen part incremented and lower ones reset |
| Publish.UnknownRequestsRejected | scripts/publish.js:48-51 | any other value exits 1, including "skip" (advertised by the warning) and an argument `version` without `=` |
| Publish.PlanVersion | scripts/publish.js:14-52 | the outcome is the switch applied to the version the arguments request (the last `version` argument, or `null`). Without such an argument the version is kept, and an exit (code 1) means some `version` argument asked for a non-bump |

## Left out

- **Date decoding.** `decodeDate` is left out: it depends on JavaScript `Date` string parsing and NaN checks.
- **Numbers.** Numbers are integers. NaN, infinities and fractions are not modelled, so neither is their truthiness.
- **Properties.** An object is its own enumerable properties in insertion order. Inherited properties and integer-like key ordering are not modelled.
- **Repeated keys.** The property list allows a key twice, which no JavaScript object does. On such a list `GetField` reads the first copy, while `NoErrorOrNullValues` checks every copy. Lemmas about `decodePost` with extra keys require those keys to differ from the four it reads.
- **Raw body reading.** `generateRawResponse` of `src/utils.ts` is not part of this model. The raw body is an abstract input that may instead be a thrown value.
- **Asynchrony and time.** Promises, `await`, `fetch` and `Date.now` are not modelled. The call is sequential, and the transport's elapsed time is an abstract non-negative input.
- **Transport argument.** The transport sees the request; passing `url.href` separately is not modelled.
- **Hook return values.** They are ignored, as in the source.
- **Exception text.** `String(e)` is the caller-supplied `stringify` function, which is assumed not to throw. In the source `String(e)` can throw (for `Object.create(null)`, or an object whose `toString` throws); that exception leaves the `catch` and escapes `call` before any end hook runs, a path the model does not have.
- ApiCaller.Call: start hooks are modelled as not modifying `apiRequest`. In the source each start hook receives the caller's mutable request object, and the transport and end hooks read that same object afterwards; the model hands the original request to both, so "with the request" in `Call` and `TransportAfterStartHooks` holds only under that assumption.
- **Registry state.** The hook lists are a value passed to `CallWithRegistry`, not mutable static arrays, and they are fixed when a call starts. In the source `APICaller.endHooks` is a public static array read again after the `try`, so a start hook, the transport or a decoder that pushes onto it (directly, or through `registerEndHook` for an identity already present) adds an end hook to the same call; the model does not have that path. Likewise `RegistryStaysEmpty` and `CallAfterRegistrationsRunsNoHooks` hold only when nothing pushes onto the public arrays directly.
- **Publishing I/O.** The rest of `scripts/publish.js` (file writes, git and npm commands, prompts, log output) is not part of this model.
- Text.ParseInt: models `parseInt` only on text that starts with its digits. Leading whitespace, signs and the `0x` prefix are not modelled, because version components never carry them.
- Text.ShowNat: renders every natural in plain decimal. JavaScript switches to exponent notation from 1e21 upward, which is not modelled.
- Decoder.DecodeArray: its contract states membership and truthiness. The order of the kept elements is stated separately, by `TruthyImagesAppend` and `TruthyImagesSingle`.
- **Repository context.** `examples/index.ts`, `src/index.ts`, `src/types/index.ts` and `rollup.config.js` hold no logic of the modelled core.

## Findings

| source | as written | input that shows it | evidently intended | confidence | as-written member | corrected member |
|---|---|---|---|---|---|---|
| src/APICaller.ts:70-80 | the hook is appended when `find` returns a hook, i.e. when its identity is already present | from the initial empty lists, `registerStartHook({id: "log", func})` leaves `startHooks` empty, so the hook never fires | append only when no hook with that identity is present, so each identity is registered once | high (not executed) | ApiCaller.RegisterStartHook (with ApiCaller.RegistryStaysEmpty) | ApiCaller.RegisterStartHookIfNew (with ApiCaller.RegisterAllIfNewKeepsIdsDistinct) |
