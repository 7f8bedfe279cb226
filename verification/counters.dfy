/** The video counters under strict updates. The like and comment handlers
    send `$inc` updates of `likesCount` and `commentsCount` to a video, but the
    video schema declares neither path, so the default strict mode drops both
    updates and the stored counters never move. The rest of the model uses the
    evidently intended schema, in which both counters are declared. */
module VideoCounters {
  import opened Common
  import opened Schema
  import opened Store
  import opened LikeRoutes

  /** `Video.findByIdAndUpdate(v, { $inc: { <path>: d } })` against a schema
      declaring `paths`; the two counter paths are the only ones incremented. */
  function IncVideo(paths: set<string>, videos: map<Id, Video>, v: Id, path: string, d: int): (r: map<Id, Video>)
    requires path == "likesCount" || path == "commentsCount"
    ensures r.Keys == videos.Keys
    ensures forall k :: k in r && k != v ==> r[k] == videos[k]
    ensures path !in paths ==> r == videos
  {
    if v !in videos then videos
    else
      var x := videos[v];
      if path == "likesCount" then videos[v := x.(likesCount := StrictInc(paths, path, x.likesCount, d))]
      else videos[v := x.(commentsCount := StrictInc(paths, path, x.commentsCount, d))]
  }

  /** The video branch of `POST /api/like` for a caller `me`, against a video
      schema declaring `paths`: the like edge toggles, then the counter update. */
  function LikeVideo(paths: set<string>, s: Store, me: Id, v: Id): (r: Store)
    ensures r.users == s.users && r.comments == s.comments && r.follows == s.follows
    ensures Like(me, VideoTarget(v)) in s.likes <==> Like(me, VideoTarget(v)) !in r.likes
  {
    var l := Like(me, VideoTarget(v));
    if l in s.likes then s.(likes := s.likes - {l}, videos := IncVideo(paths, s.videos, v, "likesCount", -1))
    else s.(likes := s.likes + {l}, videos := IncVideo(paths, s.videos, v, "likesCount", 1))
  }

  /** As written, a like never reaches the video's stored count. */
  lemma {:induction false} AsWrittenLikeNeverCounted(s: Store, me: Id, v: Id)
    ensures LikeVideo(VideoPathsAsWritten, s, me, v).videos == s.videos
  {
    assert "likesCount" !in VideoPathsAsWritten;
  }

  /** The counterexample: one video with no likes and a zero count, one like
      by one user; afterwards the video has a like edge and still a zero
      count, so the counter no longer agrees with the edges. */
  lemma AsWrittenCountDrifts()
    ensures var s := Store(map[], map["v" := Video("t", "d", "u", "th", true, 0, 0, 0)], map[], {}, {});
      && CountersAgree(s)
      && !CountersAgree(LikeVideo(VideoPathsAsWritten, s, "me", "v"))
  {
    var s := Store(map[], map["v" := Video("t", "d", "u", "th", true, 0, 0, 0)], map[], {}, {});
    assert Likers(s.likes, VideoTarget("v")) == {};
    assert CommentsOn(s.comments, "v") == {};
    var s' := LikeVideo(VideoPathsAsWritten, s, "me", "v");
    AsWrittenLikeNeverCounted(s, "me", "v");
    assert Likers(s'.likes, VideoTarget("v")) == {Like("me", VideoTarget("v"))};
    assert s'.videos["v"].likesCount == 0;
  }

  /** With both counters declared, the like branch is the toggle of the main
      model, which keeps every counter equal to its edges. */
  lemma {:induction false} CorrectedLikeIsToggle(s: Store, me: Id, v: Id)
    requires Wf(s)
    ensures LikeVideo(VideoPaths, s, me, v) == Toggle(s, me, VideoTarget(v)).store
    ensures CountersAgree(s) ==> CountersAgree(LikeVideo(VideoPaths, s, me, v))
  {
    assert "likesCount" in VideoPaths;
    var a := LikeVideo(VideoPaths, s, me, v);
    var b := Toggle(s, me, VideoTarget(v)).store;
    assert a.videos == b.videos;
    if CountersAgree(s) {
      ToggleKeepsCounters(s, me, VideoTarget(v));
    }
  }

  /** With both counters declared, the comment count update is the main
      model's `BumpComments`. */
  lemma {:induction false} CorrectedCommentCountIsBump(videos: map<Id, Video>, v: Id, d: int)
    ensures IncVideo(VideoPaths, videos, v, "commentsCount", d) == BumpComments(videos, v, d)
  {
    assert "commentsCount" in VideoPaths;
  }
}
