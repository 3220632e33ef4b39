/**
 The compound decoders of `examples/generated/types.ts`: object decoders
 assembled from the primitives of `Decoder`.
 */
module GeneratedTypes {
  import opened JsValues
  import opened Options
  import opened Decoder
  import opened ApiTypes
  import opened ApiCaller

  /** `Post`: two numeric and two string fields. */
  datatype Post = Post(userId: int, id: int, title: string, body: string)

  /** A `Post` as the plain object the decoder reads. */
  function PostToValue(p: Post): Value
  {
    Obj([Field("userId", Num(p.userId)), Field("id", Num(p.id)),
         Field("title", Str(p.title)), Field("body", Str(p.body))])
  }

  /** `decodePost`: `null` unless the input is a plain object whose `userId`
      and `id` are numbers and whose `title` and `body` are strings; then
      exactly those four values. */
  function DecodePost(rawInput: Value): (r: Option<Post>)
    ensures !IsJSON(rawInput) ==> r.None?
    ensures IsJSON(rawInput) ==>
      (r.Some? <==>
        && TypeOf(GetField(rawInput.fields, "userId")) == TNumber
        && TypeOf(GetField(rawInput.fields, "id")) == TNumber
        && TypeOf(GetField(rawInput.fields, "title")) == TString
        && TypeOf(GetField(rawInput.fields, "body")) == TString)
    ensures r.Some? ==>
      && GetField(rawInput.fields, "userId") == Num(r.value.userId)
      && GetField(rawInput.fields, "id") == Num(r.value.id)
      && GetField(rawInput.fields, "title") == Str(r.value.title)
      && GetField(rawInput.fields, "body") == Str(r.value.body)
  {
    if IsJSON(rawInput) then
      var userId := DecodeNumber(GetField(rawInput.fields, "userId"));
      var id := DecodeNumber(GetField(rawInput.fields, "id"));
      var title := DecodeString(GetField(rawInput.fields, "title"));
      var body := DecodeString(GetField(rawInput.fields, "body"));
      if userId == Null || id == Null || title == Null || body == Null then None
      else Some(Post(userId.n, id.n, title.s, body.s))
    else None
  }

  /** Decoding the object form of a post gives the post back. */
  lemma DecodePostRoundTrip(p: Post)
    ensures DecodePost(PostToValue(p)) == Some(p)
  {
    DecodePostIgnoresExtraKeys(p, []);
    assert PostToValue(p).fields + [] == PostToValue(p).fields;
  }

  /** The four keys `decodePost` reads. */
  const PostKeys: set<string> := {"userId", "id", "title", "body"}

  /** Other keys are ignored, wherever they come after the four. (Keys of
      `extra` differ from the four because a JavaScript object holds each key
      at most once.) */
  lemma DecodePostIgnoresExtraKeys(p: Post, extra: seq<Field>)
    requires forall i :: 0 <= i < |extra| ==> extra[i].key !in PostKeys
    ensures DecodePost(Obj(PostToValue(p).fields + extra)) == Some(p)
  {
    var fs := PostToValue(p).fields + extra;
    assert fs[0] == Field("userId", Num(p.userId));
    assert fs[1] == Field("id", Num(p.id));
    assert fs[2] == Field("title", Str(p.title));
    assert fs[3] == Field("body", Str(p.body));
    GetFieldAt(fs, 0, "userId");
    GetFieldAt(fs, 1, "id");
    GetFieldAt(fs, 2, "title");
    GetFieldAt(fs, 3, "body");
  }

  /** The field checks are `=== null`, not truthiness: zero ids and empty
      strings are accepted. */
  lemma DecodePostAcceptsFalsyFields()
    ensures DecodePost(Obj([Field("userId", Num(0)), Field("id", Num(0)),
                            Field("title", Str("")), Field("body", Str(""))]))
            == Some(Post(0, 0, "", ""))
  {
    DecodePostRoundTrip(Post(0, 0, "", ""));
  }

  /** A missing field reads as `undefined`, which is not a number or string,
      so the whole decode fails. */
  lemma DecodePostMissingFieldFails(p: Post, k: nat)
    requires k < 4
    ensures var fs := PostToValue(p).fields;
      DecodePost(Obj(fs[..k] + fs[k + 1..])) == None
  {
    var fs := PostToValue(p).fields;
    var gs := fs[..k] + fs[k + 1..];
    assert !HasKey(gs, fs[k].key) by {
      forall i | 0 <= i < |gs| ensures gs[i].key != fs[k].key {
        if i < k { assert gs[i] == fs[i]; } else { assert gs[i] == fs[i + 1]; }
      }
    }
  }

  /** `decodePost` in the shape decoders take: the post as a value, or `null`. */
  function DecodePostValue(rawInput: Value): (r: Value)
    ensures r == Null <==> DecodePost(rawInput).None?
    ensures r != Null ==> IsJSON(r) && DecodePost(r) == DecodePost(rawInput)
  {
    match DecodePost(rawInput)
    case Some(p) =>
      DecodePostRoundTrip(p);
      PostToValue(p)
    case None => Null
  }

  /** A decoded post is an object, hence truthy; a failure is `null`, hence falsy. */
  lemma DecodePostValueTruthy(x: Value)
    ensures Truthy(DecodePostValue(x)) <==> DecodePost(x).Some?
  {
  }

  /** Reference list for `DecodePostsKeepsDecodable`: the elements of a list
      that decode as posts, in order. */
  function DecodablePosts(xs: seq<Value>): (r: seq<Value>)
    ensures |r| <= |xs|
    ensures forall i :: 0 <= i < |r| ==> DecodePost(r[i]).Some? && r[i] in xs
    ensures forall x :: x in xs && DecodePost(x).Some? ==> x in r
  {
    if |xs| == 0 then []
    else if DecodePost(xs[0]).Some? then [xs[0]] + DecodablePosts(xs[1..])
    else DecodablePosts(xs[1..])
  }

  /** `decodeArray(response, decodePost)`, as used by the examples: since a
      decoded post is an object and hence truthy, exactly the elements that
      decode as posts are kept, in order. */
  lemma {:induction false} DecodePostsKeepsDecodable(xs: seq<Value>)
    ensures TruthyImages(xs, DecodePostValue) == CastArray(DecodablePosts(xs), DecodePostValue)
  {
    if |xs| > 0 {
      DecodePostsKeepsDecodable(xs[1..]);
      var x, rest := xs[0], xs[1..];
      DecodePostValueTruthy(x);
      var tail := CastArray(DecodablePosts(rest), DecodePostValue);
      if DecodePost(x).Some? {
        assert TruthyImages(xs, DecodePostValue) == [DecodePostValue(x)] + tail;
        assert DecodablePosts(xs) == [x] + DecodablePosts(rest);
        assert CastArray([x] + DecodablePosts(rest), DecodePostValue) == [DecodePostValue(x)] + tail;
      } else {
        assert TruthyImages(xs, DecodePostValue) == tail;
        assert DecodablePosts(xs) == DecodablePosts(rest);
      }
    }
  }

  /** `CreatePostResponse`: the id of a newly created post. */
  datatype CreatePostResponse = CreatePostResponse(id: int)

  /** `decodeCreatePostResponse`: `{id}` when the input is a plain object with
      a numeric `id`, `null` otherwise. */
  function DecodeCreatePostResponse(rawInput: Value): (r: Option<CreatePostResponse>)
    ensures r.Some? <==> IsJSON(rawInput) && TypeOf(GetField(rawInput.fields, "id")) == TNumber
    ensures r.Some? ==> GetField(rawInput.fields, "id") == Num(r.value.id)
  {
    if IsJSON(rawInput) then
      var id := DecodeNumber(GetField(rawInput.fields, "id"));
      if id == Null then None
      else Some(CreatePostResponse(id.n))
    else None
  }

  /** A post's object form also decodes as a creation response with its id. */
  lemma PostDecodesAsCreatePostResponse(p: Post)
    ensures DecodeCreatePostResponse(PostToValue(p)) == Some(CreatePostResponse(p.id))
  {
    var fs := PostToValue(p).fields;
    assert fs[0].key != "id" && fs[1] == Field("id", Num(p.id));
    assert GetField(fs, "id") == Num(p.id);
  }

  /** `decodePost` handed to `APICaller.call` as its success decoder. */
  function PostResponseDecoder(raw: Value): Completion
  {
    Normal(DecodePostValue(raw))
  }

  /** A call whose success decoder is `decodePost`, whose start hooks all
      return and whose body is a post's object form succeeds with that post,
      the status and the measured time, whatever the end hooks do. */
  lemma CallDecodesPost(
    request: Request, startHooks: seq<StartHook>, endHooks: seq<EndHook>,
    transport: Request -> TransportResult, stringify: Value -> string,
    response: Response, elapsed: nat, p: Post)
    requires AllReturn(startHooks, StartInvoker(request))
    requires transport(request) == Responded(response, elapsed)
    requires response.rawBody == Normal(PostToValue(p))
    ensures Call(request, startHooks, endHooks, transport, PostResponseDecoder, None, stringify).result
      == APISuccess(response.status, response.statusText, PostToValue(p), elapsed)
  {
    DecodePostRoundTrip(p);
    CallSuccess(request, startHooks, endHooks, transport, PostResponseDecoder, None, stringify,
                response, elapsed, PostToValue(p), PostToValue(p));
  }
}
