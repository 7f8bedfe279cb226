/** The home feed's like state: the optimistic update after a like request
    (`handleLike`) and the rebuild of the liked set from like checks
    (`checkLikeStatuses`). The requests themselves are the server handlers of
    the main model, and the lemmas at the end connect the two. */
module Feed {
  import opened Common
  import opened Schema
  import opened Store
  import opened LikeRoutes

  /** A video as the feed holds it: an id that may be missing and a count
      that may be missing. */
  datatype FeedVideo = FeedVideo(id: Option<Id>, likesCount: Option<int>)

  /** The feed's state: its videos in display order, the ids it shows as
      liked, and the ids with a like request in flight. */
  datatype FeedState = FeedState(videos: seq<FeedVideo>, liked: set<Id>, liking: set<Id>)

  /** `count || 0`: a missing count reads as zero. */
  function CountOrZero(c: Option<int>): int
  {
    if c.Some? then c.value else 0
  }

  /** The count shown after the server answers `liked`: one more on a like,
      one fewer on an unlike but never below zero. */
  function NewCount(c: Option<int>, liked: bool): (r: int)
    ensures liked ==> r == CountOrZero(c) + 1
    ensures !liked ==> r >= 0 && r >= CountOrZero(c) - 1
    ensures !liked && CountOrZero(c) >= 1 ==> r == CountOrZero(c) - 1
    ensures !liked && CountOrZero(c) < 1 ==> r == 0
  {
    if liked then CountOrZero(c) + 1
    else if CountOrZero(c) - 1 > 0 then CountOrZero(c) - 1 else 0
  }

  /** The first half of `handleLike`: without a signed-in user, or with a
      request for the same id in flight, nothing happens (`None`); otherwise
      the id joins the in-flight set. */
  function BeginLike(signedIn: bool, videoId: Id, st: FeedState): (r: Option<FeedState>)
    ensures r.Some? <==> signedIn && videoId !in st.liking
    ensures r.Some? ==> r.value == st.(liking := st.liking + {videoId})
  {
    if !signedIn || videoId in st.liking then None
    else Some(st.(liking := st.liking + {videoId}))
  }

  /** The video list after the server answered `liked`: the videos carrying
      `videoId` get the new count, the others are kept, in order. */
  function RecountVideos(videos: seq<FeedVideo>, videoId: Id, liked: bool): (r: seq<FeedVideo>)
    ensures |r| == |videos|
    ensures forall i :: 0 <= i < |r| ==> r[i].id == videos[i].id
    ensures forall i :: 0 <= i < |r| && videos[i].id != Some(videoId) ==> r[i] == videos[i]
    ensures forall i :: 0 <= i < |r| && videos[i].id == Some(videoId) ==>
      r[i].likesCount == Some(NewCount(videos[i].likesCount, liked))
  {
    seq(|videos|, i requires 0 <= i < |videos| =>
      if videos[i].id == Some(videoId) then videos[i].(likesCount := Some(NewCount(videos[i].likesCount, liked)))
      else videos[i])
  }

  /** The second half of `handleLike`: the answer's `liked` field (`None` when
      absent, as in an error body) updates the liked set and the counts, and
      the id always leaves the in-flight set. */
  function FinishLike(videoId: Id, liked: Option<bool>, st: FeedState): (r: FeedState)
    ensures r.liking == st.liking - {videoId}
    ensures liked.None? ==> r.videos == st.videos && r.liked == st.liked
    ensures liked == Some(true) ==> r.liked == st.liked + {videoId}
    ensures liked == Some(false) ==> r.liked == st.liked - {videoId}
    ensures liked.Some? ==> r.videos == RecountVideos(st.videos, videoId, liked.value)
  {
    var done := st.(liking := st.liking - {videoId});
    if liked.None? then done
    else
      done.(liked := if liked.value then st.liked + {videoId} else st.liked - {videoId},
            videos := RecountVideos(st.videos, videoId, liked.value))
  }

  /** What `likeVideo` hands back: the `liked` field of the server's answer,
      which only the toggle's answer carries. */
  function LikedField(b: Body): (r: Option<bool>)
    ensures r.Some? <==> b.Toggled?
  {
    if b.Toggled? then Some(b.liked) else None
  }

  // ------------------------------------------------- the liked-set rebuild

  /** One entry of the checks' results: `None` for a video without an id,
      otherwise the id and whether its check answered `isLiked` truthily. */
  type Status = Option<(Id, bool)>

  /** `likeStatuses.filter(s => s?.isLiked).map(s => s.videoId)` as a set. */
  function RebuildLiked(statuses: seq<Status>): (r: set<Id>)
    ensures forall id :: id in r <==> exists i :: 0 <= i < |statuses| && statuses[i] == Some((id, true))
    decreases |statuses|
  {
    if statuses == [] then {}
    else
      var rest := RebuildLiked(statuses[1..]);
      assert forall i :: 0 < i < |statuses| ==> statuses[i] == statuses[1..][i - 1];
      if statuses[0].Some? && statuses[0].value.1 then {statuses[0].value.0} + rest else rest
  }

  /** `isLiked` of the like check's answer; an error body carries none, and
      a network failure is answered as not liked. */
  function IsLikedField(b: Body): (r: bool)
    ensures r ==> b.LikeStatus?
    ensures b.LikeStatus? ==> (r <==> b.isLiked)
  {
    b.LikeStatus? && b.isLiked
  }

  /** The checks `checkLikeStatuses` issues: one like check per video with
      an id, against the store `s`. */
  function CheckAll(session: Session, videos: seq<FeedVideo>, s: Store): (r: seq<Status>)
    requires Wf(s)
    ensures |r| == |videos|
    ensures forall i :: 0 <= i < |r| ==> (r[i].None? <==> videos[i].id.None?)
    ensures forall i :: 0 <= i < |r| && videos[i].id.Some? ==>
      r[i] == Some((videos[i].id.value, IsLikedField(LikeCheck(session, videos[i].id, None, s).response.body)))
  {
    seq(|videos|, i requires 0 <= i < |videos| =>
      if videos[i].id.None? then None
      else Some((videos[i].id.value, IsLikedField(LikeCheck(session, videos[i].id, None, s).response.body))))
  }

  /** `checkLikeStatuses`: for a signed-in user with a non-empty feed the
      liked set is replaced by the rebuilt one; otherwise it is kept. */
  function CheckLikeStatuses(signedIn: bool, statuses: seq<Status>, st: FeedState): (r: FeedState)
    ensures r.videos == st.videos && r.liking == st.liking
    ensures !signedIn || st.videos == [] ==> r.liked == st.liked
    ensures signedIn && st.videos != [] ==>
      forall id :: id in r.liked <==> exists i :: 0 <= i < |statuses| && statuses[i] == Some((id, true))
  {
    if signedIn && st.videos != [] then st.(liked := RebuildLiked(statuses)) else st
  }

  // ------------------------------------------------------------- properties

  /** A like request leaves the in-flight set as it found it, and a second
      request for the same id while the first is in flight is refused. */
  lemma BeginFinishRestoresInFlight(videoId: Id, liked: Option<bool>, st: FeedState)
    requires BeginLike(true, videoId, st).Some?
    ensures FinishLike(videoId, liked, BeginLike(true, videoId, st).value).liking == st.liking
    ensures BeginLike(true, videoId, BeginLike(true, videoId, st).value).None?
  {
  }

  /** The rebuilt liked set is exactly the feed's ids that the caller has
      liked in the store; the check of an empty id fails and counts as not
      liked. */
  lemma {:induction false} RebuiltSetMatchesStore(session: Session, videos: seq<FeedVideo>, s: Store, id: Id)
    requires Wf(s) && SignedIn(session) && Caller(session, s).Some?
    ensures id in RebuildLiked(CheckAll(session, videos, s)) <==>
      && id != ""
      && (exists i :: 0 <= i < |videos| && videos[i].id == Some(id))
      && Like(Caller(session, s).value, VideoTarget(id)) in s.likes
  {
    var st := CheckAll(session, videos, s);
    var me := Caller(session, s).value;
    if id in RebuildLiked(st) {
      var i :| 0 <= i < |st| && st[i] == Some((id, true));
      assert videos[i].id == Some(id);
      assert LikeCheck(session, videos[i].id, None, s).response.status == 200;
    }
    if id != "" && (exists i :: 0 <= i < |videos| && videos[i].id == Some(id))
       && Like(me, VideoTarget(id)) in s.likes {
      var i :| 0 <= i < |videos| && videos[i].id == Some(id);
      assert st[i] == Some((id, true));
    }
  }

  /** The optimistic update agrees with the server. When the feed shows the
      store's like count of a video, and every counter agrees with its edges,
      the count the feed shows after `handleLike` is the count the store now
      holds, and the liked set holds the id exactly when the store holds the
      caller's like. */
  lemma {:induction false} OptimisticCountMatchesServer(session: Session, videoId: Id, s: Store, st: FeedState, i: int)
    requires Wf(s) && CountersAgree(s) && SignedIn(session) && Caller(session, s).Some?
    requires videoId != "" && videoId in s.videos
    requires 0 <= i < |st.videos| && st.videos[i].id == Some(videoId)
    requires st.videos[i].likesCount == Some(s.videos[videoId].likesCount)
    ensures var r := LikePost(session, Some(videoId), None, s);
      var st' := FinishLike(videoId, LikedField(r.response.body), st);
      && videoId in r.store.videos
      && st'.videos[i].likesCount == Some(r.store.videos[videoId].likesCount)
      && (videoId in st'.liked <==> Like(Caller(session, s).value, VideoTarget(videoId)) in r.store.likes)
  {
    var me := Caller(session, s).value;
    var t := VideoTarget(videoId);
    assert ChosenTarget(Some(videoId), None) == Some(t);
    var r := LikePost(session, Some(videoId), None, s);
    if Like(me, t) in s.likes {
      assert Like(me, t) in Likers(s.likes, t);
      assert s.videos[videoId].likesCount >= 1;
    }
  }
}
