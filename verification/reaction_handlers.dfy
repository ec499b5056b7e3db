/**
 The reaction controller's effects on one post: the post-level and
 comment-level reaction toggles, the comment ownership gate, and writing,
 editing and deleting comments.
 */
module ReactionHandlers {
  import opened Results
  import opened UserModel
  import opened Reactions
  import opened PostModel

  /** `comments.find(el => el._id == id)`: the first comment with that id. */
  function FindComment(cs: seq<Comment>, id: CommentId): (r: Option<nat>)
    ensures r.Some? ==> r.value < |cs| && cs[r.value].id == id
    ensures r.Some? ==> forall j :: 0 <= j < r.value ==> cs[j].id != id
    ensures r.None? <==> forall j :: 0 <= j < |cs| ==> cs[j].id != id
  {
    if cs == [] then None
    else if cs[0].id == id then Some(0)
    else
      match FindComment(cs[1..], id)
      case None => None
      case Some(i) => Some(i + 1)
  }

  /** `makeReaction`: toggle the requester's reaction on the post; nothing else changes. */
  function MakeReaction(p: Post, u: UserId, k: string): (r: Post)
    ensures r.(reacts := p.reacts) == p
    ensures Others(r.reacts, u) == Others(p.reacts, u)
    ensures Unique(p.reacts) ==> Unique(r.reacts)
    ensures Unique(p.reacts) ==> Mine(r.reacts, u) == if Reaction(u, k) in p.reacts then [] else [Reaction(u, k)]
  {
    assert Unique(p.reacts) ==>
      && Unique(Toggle(p.reacts, u, k))
      && Mine(Toggle(p.reacts, u, k), u) == if Reaction(u, k) in p.reacts then [] else [Reaction(u, k)]
    by {
      if Unique(p.reacts) {
        ToggleUnique(p.reacts, u, k);
        ToggleOwnReactions(p.reacts, u, k);
      }
    }
    p.(reacts := Toggle(p.reacts, u, k))
  }

  /**
   `commentReaction`: the same toggle on the reactions of the first comment
   with the given id. Without such a comment the handler dereferences
   undefined and fails.
   */
  function CommentReaction(p: Post, u: UserId, cid: CommentId, k: string): (r: Result<Post, AppError>)
    ensures r.Failure? <==> FindComment(p.comments, cid).None?
    ensures r.Failure? ==> r.error == AppError(NoSuchComment, None)
    ensures r.Success? ==>
      var i := FindComment(p.comments, cid).value;
      && r.value.(comments := p.comments) == p
      && |r.value.comments| == |p.comments|
      && r.value.comments[i] == p.comments[i].(reacts := Toggle(p.comments[i].reacts, u, k))
      && forall j :: 0 <= j < |p.comments| && j != i ==> r.value.comments[j] == p.comments[j]
  {
    match FindComment(p.comments, cid)
    case None => Failure(AppError(NoSuchComment, None))
    case Some(i) =>
      var c := p.comments[i];
      Success(p.(comments := p.comments[i := c.(reacts := Toggle(c.reacts, u, k))]))
  }

  /** `commentOwner`: pass only when the comment exists and the requester wrote it. */
  function CommentOwner(p: Post, cid: CommentId, requester: UserId): (r: Outcome)
    ensures r == Proceed <==>
      FindComment(p.comments, cid).Some? && p.comments[FindComment(p.comments, cid).value].commenter == requester
    ensures FindComment(p.comments, cid).None? ==> r == Reject(AppError(NoCommentToEdit, Some(401)))
    ensures r.Reject? && FindComment(p.comments, cid).Some? ==> r == Reject(AppError(NotCommentOwner, Some(401)))
  {
    match FindComment(p.comments, cid)
    case None => Reject(AppError(NoCommentToEdit, Some(401)))
    case Some(i) =>
      if requester != p.comments[i].commenter then Reject(AppError(NotCommentOwner, Some(401)))
      else Proceed
  }

  /** `writeComment`: append a comment by the requester; `freshId` is the id the store assigns. */
  function WriteComment(p: Post, u: UserId, content: string, freshId: CommentId): (r: Post)
    ensures r.(comments := p.comments) == p
    ensures |r.comments| == |p.comments| + 1
    ensures r.comments[..|p.comments|] == p.comments
    ensures r.comments[|p.comments|] == Comment(freshId, content, u, [])
  {
    p.(comments := p.comments + [Comment(freshId, content, u, [])])
  }

  /**
   `editComment`: replace the content of the first comment with that id, in
   place, and save the post. Saving re-runs the validators of the post's own
   `content`, so a post whose content is out of bounds cannot be saved.
   */
  function EditComment(p: Post, cid: CommentId, newContent: string): (r: Result<Post, AppError>)
    ensures FindComment(p.comments, cid).None? ==> r == Failure(AppError(NoSuchComment, None))
    ensures FindComment(p.comments, cid).Some? && !ContentOk(p.content) ==>
      r == Failure(AppError(ValidationFailed("content"), None))
    ensures r.Failure? <==> FindComment(p.comments, cid).None? || !ContentOk(p.content)
    ensures r.Success? ==>
      var i := FindComment(p.comments, cid).value;
      && r.value.(comments := p.comments) == p
      && |r.value.comments| == |p.comments|
      && r.value.comments[i] == p.comments[i].(content := newContent)
      && forall j :: 0 <= j < |p.comments| && j != i ==> r.value.comments[j] == p.comments[j]
  {
    match FindComment(p.comments, cid)
    case None => Failure(AppError(NoSuchComment, None))
    case Some(i) =>
      if !ContentOk(p.content) then Failure(AppError(ValidationFailed("content"), None))
      else Success(p.(comments := p.comments[i := p.comments[i].(content := newContent)]))
  }

  /**
   The ownership gate followed by the edit: `commentOwner` is written as the
   gate for the comment routes, and this composition assumes the edit is
   mounted behind it, since no route wiring for comment edits is modelled.
   */
  function EditOwnComment(p: Post, cid: CommentId, requester: UserId, newContent: string): (r: Result<Post, AppError>)
  {
    match CommentOwner(p, cid, requester)
    case Reject(e) => Failure(e)
    case Proceed => EditComment(p, cid, newContent)
  }

  /**
   Only the commenter can edit; the commenter's edit of a post that still
   validates changes that comment's content and nothing else.
   */
  lemma EditOnlyByCommenter(p: Post, cid: CommentId, requester: UserId, newContent: string)
    ensures var r := EditOwnComment(p, cid, requester, newContent);
      match FindComment(p.comments, cid)
      case None => r == Failure(AppError(NoCommentToEdit, Some(401)))
      case Some(i) =>
        if p.comments[i].commenter != requester then r == Failure(AppError(NotCommentOwner, Some(401)))
        else if !ContentOk(p.content) then r == Failure(AppError(ValidationFailed("content"), None))
        else r.Success? && r.value.comments == p.comments[i := p.comments[i].(content := newContent)]
             && r.value.(comments := p.comments) == p
  {
  }

  /** `$pull: { _id, commenter }` on the comments: drop every comment with that id written by `u`. */
  function PullComments(cs: seq<Comment>, cid: CommentId, u: UserId): (r: seq<Comment>)
    ensures |r| <= |cs|
    ensures forall c :: c in r <==> c in cs && !(c.id == cid && c.commenter == u)
  {
    if cs == [] then []
    else (if cs[0].id == cid && cs[0].commenter == u then [] else [cs[0]]) + PullComments(cs[1..], cid, u)
  }

  /** `deleteComment`: remove the requester's comments with that id; a non-owner's request changes nothing. */
  function DeleteComment(p: Post, cid: CommentId, requester: UserId): (r: Post)
    ensures r.(comments := p.comments) == p
    ensures forall c :: c in r.comments <==> c in p.comments && !(c.id == cid && c.commenter == requester)
  {
    p.(comments := PullComments(p.comments, cid, requester))
  }

  lemma {:induction false} PullCommentsAppend(a: seq<Comment>, b: seq<Comment>, cid: CommentId, u: UserId)
    ensures PullComments(a + b, cid, u) == PullComments(a, cid, u) + PullComments(b, cid, u)
    decreases |a|
  {
    if a == [] {
      assert a + b == b;
    } else {
      var head := if a[0].id == cid && a[0].commenter == u then [] else [a[0]];
      calc {
        PullComments(a + b, cid, u);
        head + PullComments((a + b)[1..], cid, u);
        { assert (a + b)[1..] == a[1..] + b; }
        head + PullComments(a[1..] + b, cid, u);
        { PullCommentsAppend(a[1..], b, cid, u); }
        head + (PullComments(a[1..], cid, u) + PullComments(b, cid, u));
        (head + PullComments(a[1..], cid, u)) + PullComments(b, cid, u);
      }
    }
  }

  lemma {:induction false} PullCommentsNone(cs: seq<Comment>, cid: CommentId, u: UserId)
    requires forall j :: 0 <= j < |cs| ==> !(cs[j].id == cid && cs[j].commenter == u)
    ensures PullComments(cs, cid, u) == cs
    decreases |cs|
  {
    if cs != [] {
      assert forall j :: 0 <= j < |cs[1..]| ==> cs[1..][j] == cs[j + 1];
      PullCommentsNone(cs[1..], cid, u);
    }
  }

  /** Deleting someone else's comment, or one that does not exist, leaves the post as it was. */
  lemma DeleteByStrangerIsNoOp(p: Post, cid: CommentId, requester: UserId)
    requires forall j :: 0 <= j < |p.comments| ==> !(p.comments[j].id == cid && p.comments[j].commenter == requester)
    ensures DeleteComment(p, cid, requester) == p
  {
    PullCommentsNone(p.comments, cid, requester);
  }

  /** A comment written under a fresh id and then deleted by its author leaves the post as it was. */
  lemma WriteThenDelete(p: Post, u: UserId, content: string, freshId: CommentId)
    requires forall j :: 0 <= j < |p.comments| ==> p.comments[j].id != freshId
    ensures DeleteComment(WriteComment(p, u, content, freshId), freshId, u) == p
  {
    var c := Comment(freshId, content, u, []);
    PullCommentsAppend(p.comments, [c], freshId, u);
    PullCommentsNone(p.comments, freshId, u);
    assert PullComments([c], freshId, u) == [];
    assert p.comments + [] == p.comments;
  }

  /** A comment reaction leaves the post-level reactions and every other comment alone. */
  lemma CommentReactionIsLocal(p: Post, u: UserId, cid: CommentId, k: string, j: nat)
    requires CommentReaction(p, u, cid, k).Success?
    requires j < |p.comments| && p.comments[j].id != cid
    ensures CommentReaction(p, u, cid, k).value.comments[j] == p.comments[j]
    ensures CommentReaction(p, u, cid, k).value.reacts == p.reacts
  {
  }
}
