/** The like endpoints: `POST /api/like`, a toggle on a video or a comment,
    and `GET /api/like/check`. */
module LikeRoutes {
  import opened Common
  import opened Schema
  import opened Store

  /** The target a request names: `videoId` wins over `commentId`, and
      supplying both is not rejected. */
  function ChosenTarget(videoId: Option<string>, commentId: Option<string>): (r: Option<Target>)
    ensures Present(videoId) ==> r == Some(VideoTarget(videoId.value))
    ensures !Present(videoId) && Present(commentId) ==> r == Some(CommentTarget(commentId.value))
    ensures r.None? <==> !Present(videoId) && !Present(commentId)
  {
    if Present(videoId) then Some(VideoTarget(videoId.value))
    else if Present(commentId) then Some(CommentTarget(commentId.value))
    else None
  }

  function ToggleMessage(t: Target, liked: bool): string
  {
    match t
    case VideoTarget(_) => if liked then "video liked" else "video unliked"
    case CommentTarget(_) => if liked then "comment liked" else "Comment unliked"
  }

  /** The toggle on one (user, target) pair: an existing edge is deleted and
      the target's count drops by one, a missing edge is created and the
      count rises by one. The target is not looked up first: an absent video
      or comment gets its edge anyway and its count update does nothing. */
  function Toggle(s: Store, me: Id, t: Target): (r: Step)
    requires Wf(s)
    ensures Wf(r.store) && r.response.status == 200
    ensures Like(me, t) in s.likes ==>
      && r.response.body == Toggled(false, ToggleMessage(t, false))
      && r.store == BumpLikes(s, t, -1).(likes := s.likes - {Like(me, t)})
    ensures Like(me, t) !in s.likes ==>
      && r.response.body == Toggled(true, ToggleMessage(t, true))
      && r.store == BumpLikes(s, t, 1).(likes := s.likes + {Like(me, t)})
  {
    if Like(me, t) in s.likes then
      Reply(200, Toggled(false, ToggleMessage(t, false)), BumpLikes(s, t, -1).(likes := s.likes - {Like(me, t)}))
    else
      Reply(200, Toggled(true, ToggleMessage(t, true)), BumpLikes(s, t, 1).(likes := s.likes + {Like(me, t)}))
  }

  /** `POST /api/like` with body `{ videoId, commentId }`. The caller's record
      is looked up before the target is inspected. */
  function LikePost(session: Session, videoId: Option<string>, commentId: Option<string>, s: Store): (r: Step)
    requires Wf(s)
    ensures Wf(r.store)
    ensures !SignedIn(session) ==> r == Reply(401, Failure("Unauthorized"), s)
    ensures SignedIn(session) && Caller(session, s).None? ==> r == Reply(404, Failure("No user found"), s)
    ensures SignedIn(session) && Caller(session, s).Some? && ChosenTarget(videoId, commentId).None? ==>
      r == Reply(400, Failure("Invalid Request, missing context"), s)
    ensures SignedIn(session) && Caller(session, s).Some? && ChosenTarget(videoId, commentId).Some? ==>
      var me := Caller(session, s).value;
      var t := ChosenTarget(videoId, commentId).value;
      var liked := Like(me, t) !in s.likes;
      && r.response == Response(200, Toggled(liked, ToggleMessage(t, liked)))
      && r.store.likes == (if liked then s.likes + {Like(me, t)} else s.likes - {Like(me, t)})
      && r.store == Toggle(s, me, t).store
  {
    if !SignedIn(session) then Reply(401, Failure("Unauthorized"), s)
    else match Caller(session, s)
      case None => Reply(404, Failure("No user found"), s)
      case Some(me) =>
        match ChosenTarget(videoId, commentId)
        case None => Reply(400, Failure("Invalid Request, missing context"), s)
        case Some(t) => Toggle(s, me, t)
  }

  /** `GET /api/like/check?videoId=…` or `?commentId=…`. A request naming
      neither answers 404, and the target check comes before the user lookup. */
  function LikeCheck(session: Session, videoId: Option<string>, commentId: Option<string>, s: Store): (r: Step)
    requires Wf(s)
    ensures r.store == s
    ensures !SignedIn(session) ==> r.response == Response(401, Failure("Unauthorized"))
    ensures SignedIn(session) && ChosenTarget(videoId, commentId).None? ==>
      r.response == Response(404, Failure("Missing videoId or CommentId"))
    ensures SignedIn(session) && ChosenTarget(videoId, commentId).Some? && Caller(session, s).None? ==>
      r.response == Response(404, Failure("User not found"))
    ensures r.response.status == 200 <==>
      SignedIn(session) && ChosenTarget(videoId, commentId).Some? && Caller(session, s).Some?
    ensures r.response.status == 200 ==>
      r.response.body == LikeStatus(Like(Caller(session, s).value, ChosenTarget(videoId, commentId).value) in s.likes)
  {
    if !SignedIn(session) then Reply(401, Failure("Unauthorized"), s)
    else if ChosenTarget(videoId, commentId).None? then Reply(404, Failure("Missing videoId or CommentId"), s)
    else match Caller(session, s)
      case None => Reply(404, Failure("User not found"), s)
      case Some(me) => Reply(200, LikeStatus(Like(me, ChosenTarget(videoId, commentId).value) in s.likes), s)
  }

  // ------------------------------------------------------------- properties

  /** A toggle changes no user, so the caller resolved afterwards is the same. */
  lemma LikeKeepsCaller(session: Session, videoId: Option<string>, commentId: Option<string>, s: Store)
    requires Wf(s) && SignedIn(session)
    ensures Caller(session, LikePost(session, videoId, commentId, s).store) == Caller(session, s)
  {
  }

  /** When `videoId` is given, `commentId` is ignored. */
  lemma VideoIdTakesPrecedence(session: Session, v: string, commentId: Option<string>, s: Store)
    requires Wf(s) && v != ""
    ensures LikePost(session, Some(v), commentId, s) == LikePost(session, Some(v), None, s)
    ensures LikeCheck(session, Some(v), commentId, s) == LikeCheck(session, Some(v), None, s)
  {
  }

  /** Two counter updates by d and -d on the same target cancel out. */
  lemma BumpLikesBack(s: Store, t: Target, d: int)
    ensures BumpLikes(BumpLikes(s, t, d), t, -d) == s
  {
    var s2 := BumpLikes(BumpLikes(s, t, d), t, -d);
    assert s2.videos == s.videos;
    assert s2.comments == s.comments;
  }

  /** The toggle on one pair, applied twice, gives back the store. */
  lemma {:induction false} ToggleInvolution(s: Store, me: Id, t: Target)
    requires Wf(s)
    ensures Toggle(Toggle(s, me, t).store, me, t).store == s
    ensures Toggle(Toggle(s, me, t).store, me, t).response.body.liked == !Toggle(s, me, t).response.body.liked
  {
    var l := Like(me, t);
    var s1 := Toggle(s, me, t).store;
    if l in s.likes {
      assert s1 == BumpLikes(s, t, -1).(likes := s.likes - {l});
      assert l !in s1.likes && s1.likes + {l} == s.likes;
      BumpLikesIgnoresEdges(BumpLikes(s, t, -1), t, 1, s.likes - {l});
      BumpLikesBack(s, t, -1);
      assert BumpLikes(s1, t, 1) == s.(likes := s.likes - {l});
    } else {
      assert s1 == BumpLikes(s, t, 1).(likes := s.likes + {l});
      assert l in s1.likes && s1.likes - {l} == s.likes;
      BumpLikesIgnoresEdges(BumpLikes(s, t, 1), t, -1, s.likes + {l});
      BumpLikesBack(s, t, 1);
      assert BumpLikes(s1, t, -1) == s.(likes := s.likes + {l});
    }
  }

  /** Toggling twice on the same target restores the edges and the counter,
      and the two answers alternate. */
  lemma {:induction false} ToggleTwiceRestores(session: Session, videoId: Option<string>, commentId: Option<string>, s: Store)
    requires Wf(s)
    ensures var r1 := LikePost(session, videoId, commentId, s);
            var r2 := LikePost(session, videoId, commentId, r1.store);
            && r2.store == s
            && (r1.response.status == 200 ==>
                  r2.response.status == 200 && r2.response.body.liked == !r1.response.body.liked)
  {
    if SignedIn(session) && Caller(session, s).Some? && ChosenTarget(videoId, commentId).Some? {
      LikeKeepsCaller(session, videoId, commentId, s);
      ToggleInvolution(s, Caller(session, s).value, ChosenTarget(videoId, commentId).value);
    }
  }

  /** A request without `videoId` never changes a video; one with `videoId`
      never changes a comment. */
  lemma TargetsIndependent(session: Session, videoId: Option<string>, commentId: Option<string>, s: Store)
    requires Wf(s)
    ensures !Present(videoId) ==> LikePost(session, videoId, commentId, s).store.videos == s.videos
    ensures Present(videoId) ==> LikePost(session, videoId, commentId, s).store.comments == s.comments
  {
    if SignedIn(session) && Caller(session, s).Some? && ChosenTarget(videoId, commentId).Some? {
      var me := Caller(session, s).value;
      var t := ChosenTarget(videoId, commentId).value;
      assert LikePost(session, videoId, commentId, s).store == Toggle(s, me, t).store;
      assert Present(videoId) <==> t.VideoTarget?;
      ToggleOtherKind(s, me, t);
    }
  }

  /** A toggle on a comment leaves every video alone, and one on a video every comment. */
  lemma ToggleOtherKind(s: Store, me: Id, t: Target)
    requires Wf(s)
    ensures t.CommentTarget? ==> Toggle(s, me, t).store.videos == s.videos
    ensures t.VideoTarget? ==> Toggle(s, me, t).store.comments == s.comments
  {
    BumpLikesOtherKind(s, t, 1);
    BumpLikesOtherKind(s, t, -1);
  }

  /** After a toggle, the check on the same target reports what the toggle answered. */
  lemma {:induction false} CheckAgreesWithToggle(session: Session, videoId: Option<string>, commentId: Option<string>, s: Store)
    requires Wf(s)
    requires LikePost(session, videoId, commentId, s).response.status == 200
    ensures var r := LikePost(session, videoId, commentId, s);
      LikeCheck(session, videoId, commentId, r.store).response == Response(200, LikeStatus(r.response.body.liked))
  {
    LikeKeepsCaller(session, videoId, commentId, s);
  }

  lemma {:induction false} ToggleKeepsVideoCounters(s: Store, me: Id, t: Target)
    requires Wf(s) && VideoCountersAgree(s)
    ensures VideoCountersAgree(Toggle(s, me, t).store)
  {
    var s' := Toggle(s, me, t).store;
    var l := Like(me, t);
    var d := if l in s.likes then -1 else 1;
    assert s' == BumpLikes(s, t, d).(likes := if l in s.likes then s.likes - {l} else s.likes + {l});
    CommentsOnIgnoresLikes(s.comments, s'.comments);
    forall v | v in s'.videos
      ensures s'.videos[v].likesCount == |Likers(s'.likes, VideoTarget(v))|
      ensures s'.videos[v].commentsCount == |CommentsOn(s'.comments, v)|
    {
      assert s'.videos[v].commentsCount == s.videos[v].commentsCount;
      assert s'.videos[v].likesCount == s.videos[v].likesCount + (if t == VideoTarget(v) then d else 0);
      if l in s.likes {
        LikersRemove(s.likes, l, VideoTarget(v));
      } else {
        LikersInsert(s.likes, l, VideoTarget(v));
      }
    }
  }

  lemma {:induction false} ToggleKeepsCommentCounters(s: Store, me: Id, t: Target)
    requires Wf(s) && CommentCountersAgree(s)
    ensures CommentCountersAgree(Toggle(s, me, t).store)
  {
    var s' := Toggle(s, me, t).store;
    var l := Like(me, t);
    forall c | c in s'.comments
      ensures s'.comments[c].likesCount == |Likers(s'.likes, CommentTarget(c))|
    {
      if l in s.likes {
        LikersRemove(s.likes, l, CommentTarget(c));
      } else {
        LikersInsert(s.likes, l, CommentTarget(c));
      }
    }
  }

  /** Every toggle keeps each like counter equal to its number of like edges. */
  lemma {:induction false} ToggleKeepsCounters(s: Store, me: Id, t: Target)
    requires Wf(s) && CountersAgree(s)
    ensures CountersAgree(Toggle(s, me, t).store)
  {
    ToggleKeepsVideoCounters(s, me, t);
    ToggleKeepsCommentCounters(s, me, t);
  }

  lemma {:induction false} LikePostKeepsCounters(session: Session, videoId: Option<string>, commentId: Option<string>, s: Store)
    requires Wf(s) && CountersAgree(s)
    ensures CountersAgree(LikePost(session, videoId, commentId, s).store)
  {
    if SignedIn(session) && Caller(session, s).Some? && ChosenTarget(videoId, commentId).Some? {
      ToggleKeepsCounters(s, Caller(session, s).value, ChosenTarget(videoId, commentId).value);
    }
  }
}
