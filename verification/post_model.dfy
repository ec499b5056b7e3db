/**
 Posts and their comments as the controllers use them, the schema's content
 bounds, and the post controller's create and update handlers.
 */
module PostModel {
  import opened Results
  import opened JsValues
  import opened UserModel
  import opened Reactions
  import opened Whitelist

  type PostId = string
  type CommentId = string

  datatype Comment = Comment(id: CommentId, content: string, commenter: UserId, reacts: seq<Reaction>)

  /**
   A stored post; `writtenAt` is in milliseconds since the epoch. `content` is
   `None` once an update has written `null` over it.
   */
  datatype Post = Post(
    id: PostId,
    content: Option<string>,
    publisher: UserId,
    writtenAt: int,
    reacts: seq<Reaction>,
    comments: seq<Comment>)

  const MaxContentLength: nat := 500

  /** The `content` path: required (so not empty), at least 1 and at most 500 characters. */
  predicate ContentOk(content: Option<string>)
  {
    content.Some? && 1 <= |content.value| <= MaxContentLength
  }

  /**
   Assigning a body value to the `content` path and validating it: the value is
   first cast to a string, then checked against `required`, `minlength` and
   `maxlength`.
   */
  function ValidateContent(content: Option<Value>): (r: Result<string, AppError>)
    ensures r.Success? <==>
      && content.Some? && content.value != JNull
      && CastString(content.value).Some? && ContentOk(CastString(content.value))
    ensures r.Success? ==> r.value == CastString(content.value).value
    ensures content.Some? && content.value.JStr? ==> (r.Success? <==> 1 <= |content.value.s| <= 500)
    ensures content.None? || content == Some(JNull) ==> r == Failure(AppError(ValidationFailed("content"), None))
    ensures content.Some? && content.value != JNull && CastString(content.value).None? ==>
      r == Failure(AppError(CastFailed("content"), None))
  {
    match content
    case None => Failure(AppError(ValidationFailed("content"), None))
    case Some(JNull) => Failure(AppError(ValidationFailed("content"), None))
    case Some(v) =>
      match CastString(v)
      case None => Failure(AppError(CastFailed("content"), None))
      case Some(s) =>
        if s == "" || |s| > MaxContentLength then Failure(AppError(ValidationFailed("content"), None))
        else Success(s)
  }

  /** `body.key`, with a missing key as `None`. */
  function BodyField(body: Body, key: string): (r: Option<Value>)
    ensures r.Some? <==> key in body
    ensures r.Some? ==> r.value == body[key]
  {
    if key in body then Some(body[key]) else None
  }

  /**
   `createPost`: a post made of the body's `content` and the requester alone.
   Its `writtenAt` is the schema default, the single instant `schemaLoadedAt`
   at which the schema was defined, whatever the creation time `now`.
   */
  function CreatePost(body: Body, requester: UserId, id: PostId, schemaLoadedAt: int, now: int): (r: Result<Post, AppError>)
    ensures r.Success? <==> ValidateContent(BodyField(body, "content")).Success?
    ensures r.Success? ==> "content" in body && r.value.content == CastString(body["content"])
    ensures r.Success? ==> ContentOk(r.value.content)
    ensures r.Success? ==> r.value.publisher == requester && r.value.id == id
    ensures r.Success? ==> r.value.writtenAt == schemaLoadedAt
    ensures r.Success? ==> r.value.reacts == [] && r.value.comments == []
  {
    match ValidateContent(BodyField(body, "content"))
    case Failure(e) => Failure(e)
    case Success(content) => Success(Post(id, Some(content), requester, schemaLoadedAt, [], []))
  }

  /** Only `content` of the body matters: every other field is ignored. */
  lemma CreatePostIgnoresOtherFields(b1: Body, b2: Body, requester: UserId, id: PostId, t0: int, now: int)
    requires BodyField(b1, "content") == BodyField(b2, "content")
    ensures CreatePost(b1, requester, id, t0, now) == CreatePost(b2, requester, id, t0, now)
  {
  }

  /** Two posts created at different times carry the same `writtenAt`. */
  lemma WrittenAtFixedAtSchemaLoad(body: Body, requester: UserId, id: PostId, t0: int, now1: int, now2: int)
    ensures CreatePost(body, requester, id, t0, now1) == CreatePost(body, requester, id, t0, now2)
  {
  }

  /** 500 characters are accepted, 501 and the empty string are not. */
  lemma ContentLengthBoundary(s: string)
    ensures |s| == 500 ==> ValidateContent(Some(JStr(s))).Success?
    ensures |s| == 501 ==> ValidateContent(Some(JStr(s))).Failure?
    ensures s == "" ==> ValidateContent(Some(JStr(s))).Failure?
    ensures ValidateContent(None).Failure?
  {
  }

  /**
   `updatePost`: whitelist the body to `content` and write it without running
   the schema validators. The value is still cast to a string, but the length
   bounds are not checked and `null` is stored as it is.
   */
  method UpdatePost(post: Post, body: Body) returns (r: Result<Post, AppError>)
    ensures r.Success? ==> r.value.(content := post.content) == post
    ensures "content" !in body ==> r == Success(post)
    ensures "content" in body && body["content"] == JNull ==> r == Success(post.(content := None))
    ensures "content" in body && body["content"] != JNull ==>
      if CastString(body["content"]).Some? then r == Success(post.(content := CastString(body["content"])))
      else r == Failure(AppError(CastFailed("content"), None))
    ensures ValidateContent(BodyField(body, "content")).Success? ==>
      r == Success(post.(content := Some(ValidateContent(BodyField(body, "content")).value)))
  {
    var patch := FilterObj(body, ["content"]);
    if "content" in patch {
      var v := patch["content"];
      if v == JNull {
        r := Success(post.(content := None));
      } else {
        match CastString(v)
        case Some(s) => r := Success(post.(content := Some(s)));
        case None => r := Failure(AppError(CastFailed("content"), None));
      }
    } else {
      r := Success(post);
    }
  }
}
