/** The comment endpoints: `GET /api/comment` (the newest 50 comments of a
    video) and `POST /api/comment` (create, then bump the video's count). */
module CommentRoutes {
  import opened Common
  import opened Schema
  import opened Store
  import opened Listing

  const PageSize: nat := 50

  function CreatedAt(c: Comment): int
  {
    c.createdAt
  }

  /** `GET /api/comment?videoId=…`: no session is needed. The answer lists
      only that video's comments, newest first, at most 50 of them, and leaves
      out no comment newer than one it lists. The method has no store to
      return: the listing reads and never writes. */
  method CommentGet(videoId: Option<string>, s: Store) returns (r: Response)
    ensures !Present(videoId) ==> r == Response(400, Failure("Missing videoId"))
    ensures Present(videoId) ==> r.status == 200 && r.body.Comments?
    ensures Present(videoId) ==>
      var cs := r.body.comments;
      && |cs| <= PageSize
      && (forall i :: 0 <= i < |cs| ==>
            cs[i].0 in s.comments && s.comments[cs[i].0] == cs[i].1 && cs[i].1.video == videoId.value)
      && (forall i, j :: 0 <= i < j < |cs| ==> cs[i].0 != cs[j].0)
      && (forall i, j :: 0 <= i < j < |cs| ==> cs[i].1.createdAt >= cs[j].1.createdAt)
      && (forall k :: k in s.comments && s.comments[k].video == videoId.value ==>
            (exists i :: 0 <= i < |cs| && cs[i].0 == k) || |cs| == PageSize)
      && (forall k :: k in s.comments && s.comments[k].video == videoId.value
                      && (forall i :: 0 <= i < |cs| ==> cs[i].0 != k) ==>
            forall i :: 0 <= i < |cs| ==> s.comments[k].createdAt <= cs[i].1.createdAt)
  {
    if !Present(videoId) {
      return Response(400, Failure("Missing videoId"));
    }
    var v := videoId.value;
    var onVideo := map k | k in s.comments && s.comments[k].video == v :: s.comments[k];
    var cs := TakeNewest(onVideo, CreatedAt, PageSize);
    assert forall k :: k in s.comments && s.comments[k].video == v ==> k in onVideo;
    r := Response(200, Comments(cs));
  }

  /** The create path of `POST /api/comment` succeeds. */
  predicate CommentCreates(session: Session, content: Option<string>, videoId: Option<string>,
                           newId: Id, s: Store)
    requires Wf(s)
  {
    && SignedIn(session) && Present(content) && Present(videoId)
    && Caller(session, s).Some?
    && JsLength(content.value) <= MaxCommentLength
    && newId !in s.comments
  }

  /** `POST /api/comment` with body `{ content, videoId }`. The new document
      gets id `newId` and timestamp `now`. A content over 200 characters fails
      the schema and a colliding id fails the insert; both land in the 500
      branch. The video is not looked up: a comment on an absent video is
      stored, and the count update then does nothing. */
  function CommentPost(session: Session, content: Option<string>, videoId: Option<string>,
                       newId: Id, now: int, s: Store): (r: Step)
    requires Wf(s)
    ensures Wf(r.store)
    ensures !SignedIn(session) ==> r == Reply(401, Failure("Unauthorized"), s)
    ensures SignedIn(session) && (!Present(content) || !Present(videoId)) ==>
      r == Reply(400, Failure("Missing content or videoId"), s)
    ensures SignedIn(session) && Present(content) && Present(videoId) && Caller(session, s).None? ==>
      r == Reply(404, Failure("User not found"), s)
    ensures SignedIn(session) && Present(content) && Present(videoId) && Caller(session, s).Some?
            && !CommentCreates(session, content, videoId, newId, s) ==>
      r == Reply(500, Failure("Server error"), s)
    ensures CommentCreates(session, content, videoId, newId, s) ==>
      var c := Comment(content.value, Caller(session, s).value, videoId.value, 0, now);
      && r.response == Response(200, CommentAdded(newId, c))
      && r.store.comments == s.comments[newId := c]
      && r.store.videos == BumpComments(s.videos, videoId.value, 1)
      && r.store.users == s.users && r.store.follows == s.follows && r.store.likes == s.likes
  {
    if !SignedIn(session) then Reply(401, Failure("Unauthorized"), s)
    else if !Present(content) || !Present(videoId) then Reply(400, Failure("Missing content or videoId"), s)
    else match Caller(session, s)
      case None => Reply(404, Failure("User not found"), s)
      case Some(me) =>
        match CreateComment(CommentInput(content, Some(me), videoId), now)
        case None => Reply(500, Failure("Server error"), s)
        case Some(c) =>
          if newId in s.comments then Reply(500, Failure("Server error"), s)
          else
            var s' := s.(comments := s.comments[newId := c],
                         videos := BumpComments(s.videos, videoId.value, 1));
            Reply(200, CommentAdded(newId, c), s')
  }

  // ------------------------------------------------------------- properties

  /** The length limit counts UTF-16 code units: a comment of 101
      characters outside the Basic Multilingual Plane is 202 units long,
      fails the schema and is answered with the server error. */
  lemma {:induction false} WideCommentRefused(session: Session, videoId: Option<string>, newId: Id, now: int, s: Store)
    requires Wf(s) && SignedIn(session) && Caller(session, s).Some? && Present(videoId)
    ensures CommentPost(session, Some(seq(101, _ => '\U{1F600}')), videoId, newId, now, s) == Reply(500, Failure("Server error"), s)
  {
    JsLengthRepeat('\U{1F600}', 101);
  }

  /** A new comment under a fresh id keeps every counter equal to its edge
      count: its video gains one comment and one on its count, and the new
      comment has no likes and a zero like count. */
  lemma {:induction false} CommentPostKeepsCounters(session: Session, content: Option<string>,
                                                    videoId: Option<string>, newId: Id, now: int, s: Store)
    requires Wf(s) && CountersAgree(s) && Unused(s, newId)
    ensures CountersAgree(CommentPost(session, content, videoId, newId, now, s).store)
  {
    var r := CommentPost(session, content, videoId, newId, now, s);
    if CommentCreates(session, content, videoId, newId, s) {
      var s' := r.store;
      var c := s'.comments[newId];
      forall v | v in s'.videos
        ensures s'.videos[v].commentsCount == |CommentsOn(s'.comments, v)|
      {
        CommentsOnInsert(s.comments, newId, c, v);
      }
      assert Likers(s'.likes, CommentTarget(newId)) == {};
    }
  }

  /** Only the named video's comment count moves, and by exactly one. */
  lemma OnlyThatVideoCounts(session: Session, content: Option<string>, videoId: Option<string>,
                            newId: Id, now: int, s: Store, v: Id)
    requires Wf(s) && v in s.videos
    requires CommentCreates(session, content, videoId, newId, s)
    ensures var s' := CommentPost(session, content, videoId, newId, now, s).store;
      s'.videos[v].commentsCount == s.videos[v].commentsCount + (if v == videoId.value then 1 else 0)
      && s'.videos[v].likesCount == s.videos[v].likesCount
  {
  }
}
