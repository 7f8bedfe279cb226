/** The video endpoints: `GET /api/videos` (every video, newest first) and
    `POST /api/videos` (validate, default `controls`, create). Both answer
    400 on an internal failure, where the other handlers answer 500. */
module VideoRoutes {
  import opened Common
  import opened Schema
  import opened Store
  import opened Listing

  function VideoCreatedAt(v: Video): int
  {
    v.createdAt
  }

  /** `GET /api/videos`: a bare array of every video, each once, newest
      first; as many entries as there are videos. Nothing is written. */
  method VideoGet(s: Store) returns (r: Response)
    ensures r.status == 200 && r.body.Videos?
    ensures var vs := r.body.videos;
      && (forall i :: 0 <= i < |vs| ==> vs[i].0 in s.videos && s.videos[vs[i].0] == vs[i].1)
      && (forall i, j :: 0 <= i < j < |vs| ==> vs[i].0 != vs[j].0)
      && (forall k :: k in s.videos ==> exists i :: 0 <= i < |vs| && vs[i].0 == k)
      && (forall i, j :: 0 <= i < j < |vs| ==> vs[i].1.createdAt >= vs[j].1.createdAt)
    ensures |r.body.videos| == |s.videos|
  {
    var vs := ListAll(s.videos, VideoCreatedAt);
    r := Response(200, Videos(vs));
  }

  /** `body.controls ?? true`: an absent or null `controls` becomes true, an
      explicit value is kept. */
  function DefaultControls(controls: Option<bool>): (r: bool)
    ensures controls == Some(false) ==> !r
    ensures controls != Some(false) ==> r
  {
    if controls.Some? then controls.value else true
  }

  /** `POST /api/videos`. Only the presence of a session is checked (not its
      email). The new document gets id `newId` and timestamp `now`; a
      colliding id fails the insert into the 400 branch. */
  function VideoPost(session: Session, body: VideoInput, newId: Id, now: int, s: Store): (r: Step)
    ensures session.NoSession? ==> r == Reply(401, Bare("Unauthorized"), s)
    ensures session.Session? && !VideoInputValid(body) ==> r == Reply(400, Bare("Missing required fields"), s)
    ensures session.Session? && VideoInputValid(body) && newId in s.videos ==>
      r == Reply(400, Bare("Failed to create a video"), s)
    ensures r.response.status == 200 <==> session.Session? && VideoInputValid(body) && newId !in s.videos
    ensures r.response.status == 200 ==>
      var v := Video(body.title.value, body.description.value, body.videoUrl.value, body.thumbnailUrl.value,
                     DefaultControls(body.controls), now, 0, 0);
      && r.response.body == VideoCreated(newId, v)
      && r.store == s.(videos := s.videos[newId := v])
    ensures r.response.status != 200 ==> r.store == s
  {
    if session.NoSession? then Reply(401, Bare("Unauthorized"), s)
    else if !VideoInputValid(body) then Reply(400, Bare("Missing required fields"), s)
    else
      var withDefault := body.(controls := Some(DefaultControls(body.controls)));
      // the handler's own check is the schema's required check, so creation validates
      var v := CreateVideo(withDefault, now).value;
      if newId in s.videos then Reply(400, Bare("Failed to create a video"), s)
      else Reply(200, VideoCreated(newId, v), s.(videos := s.videos[newId := v]))
  }

  // ------------------------------------------------------------- properties

  /** A new video under a fresh id starts with counters that agree with its
      (absent) likes and comments, so every counter still agrees. */
  lemma {:induction false} VideoPostKeepsCounters(session: Session, body: VideoInput, newId: Id, now: int, s: Store)
    requires CountersAgree(s) && Unused(s, newId)
    ensures CountersAgree(VideoPost(session, body, newId, now, s).store)
  {
    var s' := VideoPost(session, body, newId, now, s).store;
    if s' != s {
      assert Likers(s.likes, VideoTarget(newId)) == {};
      assert CommentsOn(s.comments, newId) == {};
    }
  }

  /** A video created by the handler is listed by the next `GET /api/videos`. */
  method ListedAfterCreate(session: Session, body: VideoInput, newId: Id, now: int, s: Store)
    returns (listed: seq<(Id, Video)>)
    requires VideoPost(session, body, newId, now, s).response.status == 200
    ensures exists i :: 0 <= i < |listed| && listed[i].0 == newId
    ensures forall i :: 0 <= i < |listed| ==> listed[i].0 in s.videos || listed[i].0 == newId
  {
    var s' := VideoPost(session, body, newId, now, s).store;
    assert newId in s'.videos;
    var r := VideoGet(s');
    listed := r.body.videos;
  }
}
