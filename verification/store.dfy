/** The document store the request handlers read and write, the responses
    they return, and the cached-counter invariant: every counter on a user,
    video or comment equals the number of edges (or comments) it caches. */
module Store {
  import opened Common
  import opened Schema

  /** Users, videos and comments keyed by id; follow and like edges as sets,
      since the unique indexes admit at most one document per edge. */
  datatype Store = Store(
    users: map<Id, User>,
    videos: map<Id, Video>,
    comments: map<Id, Comment>,
    follows: set<Follow>,
    likes: set<Like>)

  /** JSON bodies the handlers answer with. */
  datatype Body =
    | Failure(error: string)                  // { success: false, error }
    | Bare(error: string)                     // { error }, no `success` field
    | Done(message: string)                   // { success: true, message }
    | AlreadyFollowing                        // { success: true, message: "Already following", isFollowing: true }
    | FollowStatus(isFollowing: bool)         // { success: true, isFollowing }
    | Toggled(liked: bool, message: string)   // { liked, message }
    | LikeStatus(isLiked: bool)               // { success: true, isLiked }
    | Comments(comments: seq<(Id, Comment)>)  // { success: true, comments }
    | CommentAdded(id: Id, comment: Comment)  // { success: true, message: "Comment added", comment }
    | Videos(videos: seq<(Id, Video)>)        // a bare JSON array
    | VideoCreated(id: Id, video: Video)      // the created document

  datatype Response = Response(status: nat, body: Body)

  /** One handler invocation: what it answers and the store it leaves. */
  datatype Step = Step(response: Response, store: Store)

  function Reply(status: nat, body: Body, s: Store): (r: Step)
    ensures r.store == s && r.response.status == status
  {
    Step(Response(status, body), s)
  }

  // ------------------------------------------------------- unique user keys

  predicate EmailsUnique(users: map<Id, User>)
  {
    forall a, b :: a in users && b in users && users[a].email == users[b].email ==> a == b
  }

  predicate UsernamesUnique(users: map<Id, User>)
  {
    forall a, b :: a in users && b in users && users[a].username == users[b].username ==> a == b
  }

  /** What the store's unique indexes guarantee, and that an id is never empty. */
  predicate Wf(s: Store)
  {
    EmailsUnique(s.users) && UsernamesUnique(s.users) && "" !in s.users
  }

  /** The same users under the same emails and usernames: the unique keys still hold. */
  predicate SameUserKeys(a: map<Id, User>, b: map<Id, User>)
  {
    a.Keys == b.Keys && forall k :: k in a ==> a[k].email == b[k].email && a[k].username == b[k].username
  }

  lemma WfBySameKeys(s: Store, s': Store)
    requires Wf(s) && SameUserKeys(s.users, s'.users)
    ensures Wf(s')
  {
  }

  /** The one user holding `email`, if any. */
  function FindByEmail(users: map<Id, User>, email: string): (r: Option<Id>)
    requires EmailsUnique(users)
    ensures r.Some? ==> r.value in users && users[r.value].email == email
    ensures r.None? ==> forall k :: k in users ==> users[k].email != email
  {
    if exists k :: k in users && users[k].email == email then
      var k :| k in users && users[k].email == email;
      Some(k)
    else
      None
  }

  /** `User.findOne({ email })`: the query value goes through the email
      path's setters before it is compared. */
  function FindUser(users: map<Id, User>, email: string): (r: Option<Id>)
    requires EmailsUnique(users)
    ensures r.Some? <==> exists k :: k in users && users[k].email == NormalizeKey(email)
    ensures r.Some? ==> r.value in users && users[r.value].email == NormalizeKey(email)
  {
    FindByEmail(users, NormalizeKey(email))
  }

  /** The caller of an authenticated request, resolved from the session's email. */
  function Caller(session: Session, s: Store): (r: Option<Id>)
    requires SignedIn(session) && EmailsUnique(s.users)
    ensures r.Some? ==> r.value in s.users
  {
    FindUser(s.users, session.email.value)
  }

  /** Lookups by email see only the emails, so changing counters elsewhere
      does not change who the caller is. */
  lemma FindUserIgnoresCounters(a: map<Id, User>, b: map<Id, User>, email: string)
    requires a.Keys == b.Keys
    requires forall k :: k in a ==> a[k].email == b[k].email
    requires EmailsUnique(a)
    ensures EmailsUnique(b)
    ensures FindUser(a, email) == FindUser(b, email)
  {
    var e := NormalizeKey(email);
    if FindUser(a, email).Some? {
      var x := FindUser(a, email).value;
      var y := FindUser(b, email).value;
      assert a[y].email == e;
    }
  }

  // ------------------------------------------------------- counter updates

  /** `findByIdAndUpdate(u, { $inc: { followingCount: d } })`; absent ids are left alone. */
  function BumpFollowing(users: map<Id, User>, u: Id, d: int): (r: map<Id, User>)
    ensures r.Keys == users.Keys
    ensures forall k :: k in r && k != u ==> r[k] == users[k]
    ensures u in users ==> r[u] == users[u].(followingCount := users[u].followingCount + d)
  {
    if u in users then users[u := users[u].(followingCount := users[u].followingCount + d)] else users
  }

  function BumpFollowers(users: map<Id, User>, u: Id, d: int): (r: map<Id, User>)
    ensures r.Keys == users.Keys
    ensures forall k :: k in r && k != u ==> r[k] == users[k]
    ensures u in users ==> r[u] == users[u].(followersCount := users[u].followersCount + d)
  {
    if u in users then users[u := users[u].(followersCount := users[u].followersCount + d)] else users
  }

  /** `$inc` on the `likesCount` of the like's target, a video or a comment. */
  function BumpLikes(s: Store, t: Target, d: int): (r: Store)
    ensures r.users == s.users && r.follows == s.follows && r.likes == s.likes
    ensures r.videos.Keys == s.videos.Keys && r.comments.Keys == s.comments.Keys
    ensures forall v :: v in s.videos && VideoTarget(v) != t ==> r.videos[v] == s.videos[v]
    ensures forall c :: c in s.comments && CommentTarget(c) != t ==> r.comments[c] == s.comments[c]
    ensures forall c :: c in s.comments ==> r.comments[c].video == s.comments[c].video
    ensures t.VideoTarget? && t.id in s.videos ==>
      r.videos[t.id] == s.videos[t.id].(likesCount := s.videos[t.id].likesCount + d)
    ensures t.CommentTarget? && t.id in s.comments ==>
      r.comments[t.id] == s.comments[t.id].(likesCount := s.comments[t.id].likesCount + d)
  {
    match t
    case VideoTarget(v) =>
      if v in s.videos then s.(videos := s.videos[v := s.videos[v].(likesCount := s.videos[v].likesCount + d)])
      else s
    case CommentTarget(c) =>
      if c in s.comments then s.(comments := s.comments[c := s.comments[c].(likesCount := s.comments[c].likesCount + d)])
      else s
  }

  /** A like counter update on a comment leaves every video alone, and one
      on a video leaves every comment alone. */
  lemma BumpLikesOtherKind(s: Store, t: Target, d: int)
    ensures t.CommentTarget? ==> BumpLikes(s, t, d).videos == s.videos
    ensures t.VideoTarget? ==> BumpLikes(s, t, d).comments == s.comments
  {
  }

  /** A counter update reads no edges: it commutes with replacing the like edges. */
  lemma BumpLikesIgnoresEdges(s: Store, t: Target, d: int, likes: set<Like>)
    ensures BumpLikes(s.(likes := likes), t, d) == BumpLikes(s, t, d).(likes := likes)
  {
  }

  function BumpComments(videos: map<Id, Video>, v: Id, d: int): (r: map<Id, Video>)
    ensures r.Keys == videos.Keys
    ensures forall k :: k in r && k != v ==> r[k] == videos[k]
    ensures v in videos ==> r[v] == videos[v].(commentsCount := videos[v].commentsCount + d)
  {
    if v in videos then videos[v := videos[v].(commentsCount := videos[v].commentsCount + d)] else videos
  }

  /** Each user counter update is undone by the opposite update. */
  lemma {:induction false} BumpUsersUndo(users: map<Id, User>, u: Id, d: int)
    ensures BumpFollowing(BumpFollowing(users, u, d), u, -d) == users
    ensures BumpFollowers(BumpFollowers(users, u, d), u, -d) == users
  {
    if u in users {
      assert BumpFollowing(BumpFollowing(users, u, d), u, -d)[u] == users[u];
      assert BumpFollowers(BumpFollowers(users, u, d), u, -d)[u] == users[u];
    }
  }

  /** A comment count update is undone by the opposite update. */
  lemma {:induction false} BumpCommentsUndo(videos: map<Id, Video>, v: Id, d: int)
    ensures BumpComments(BumpComments(videos, v, d), v, -d) == videos
  {
    if v in videos {
      assert BumpComments(BumpComments(videos, v, d), v, -d)[v] == videos[v];
    }
  }

  /** A like count update is undone by the opposite update. */
  lemma {:induction false} BumpLikesUndo(s: Store, t: Target, d: int)
    ensures BumpLikes(BumpLikes(s, t, d), t, -d) == s
  {
    var twice := BumpLikes(BumpLikes(s, t, d), t, -d);
    if t.VideoTarget? && t.id in s.videos {
      assert twice.videos[t.id] == s.videos[t.id];
      assert twice.videos == s.videos;
    }
    if t.CommentTarget? && t.id in s.comments {
      assert twice.comments[t.id] == s.comments[t.id];
      assert twice.comments == s.comments;
    }
  }

  // ------------------------------------------------------- the counter invariant

  function Followers(follows: set<Follow>, u: Id): set<Follow>
  {
    set f | f in follows && f.following == u
  }

  function Followees(follows: set<Follow>, u: Id): set<Follow>
  {
    set f | f in follows && f.follower == u
  }

  function Likers(likes: set<Like>, t: Target): set<Like>
  {
    set l | l in likes && l.target == t
  }

  function CommentsOn(comments: map<Id, Comment>, v: Id): set<Id>
  {
    set c | c in comments && comments[c].video == v
  }

  predicate UserCountersAgree(s: Store)
  {
    forall u :: u in s.users ==>
      && s.users[u].followersCount == |Followers(s.follows, u)|
      && s.users[u].followingCount == |Followees(s.follows, u)|
  }

  predicate VideoCountersAgree(s: Store)
  {
    forall v :: v in s.videos ==>
      && s.videos[v].likesCount == |Likers(s.likes, VideoTarget(v))|
      && s.videos[v].commentsCount == |CommentsOn(s.comments, v)|
  }

  predicate CommentCountersAgree(s: Store)
  {
    forall c :: c in s.comments ==> s.comments[c].likesCount == |Likers(s.likes, CommentTarget(c))|
  }

  /** Every cached counter equals the number of edges it stands for. */
  predicate CountersAgree(s: Store)
  {
    UserCountersAgree(s) && VideoCountersAgree(s) && CommentCountersAgree(s)
  }

  /** An id that no document holds and no edge or comment refers to: what a
      newly generated ObjectId is. */
  predicate Unused(s: Store, id: Id)
  {
    && id !in s.users && id !in s.videos && id !in s.comments
    && (forall f :: f in s.follows ==> f.follower != id && f.following != id)
    && (forall l :: l in s.likes ==> l.target.id != id)
    && (forall c :: c in s.comments ==> s.comments[c].video != id)
  }

  // ------------------------------------------------------- edge-count arithmetic

  lemma FollowersInsert(follows: set<Follow>, e: Follow, u: Id)
    requires e !in follows
    ensures |Followers(follows + {e}, u)| == |Followers(follows, u)| + (if e.following == u then 1 else 0)
    ensures |Followees(follows + {e}, u)| == |Followees(follows, u)| + (if e.follower == u then 1 else 0)
  {
    if e.following == u {
      assert Followers(follows + {e}, u) == Followers(follows, u) + {e};
    } else {
      assert Followers(follows + {e}, u) == Followers(follows, u);
    }
    if e.follower == u {
      assert Followees(follows + {e}, u) == Followees(follows, u) + {e};
    } else {
      assert Followees(follows + {e}, u) == Followees(follows, u);
    }
  }

  lemma FollowersRemove(follows: set<Follow>, e: Follow, u: Id)
    requires e in follows
    ensures |Followers(follows - {e}, u)| == |Followers(follows, u)| - (if e.following == u then 1 else 0)
    ensures |Followees(follows - {e}, u)| == |Followees(follows, u)| - (if e.follower == u then 1 else 0)
  {
    FollowersInsert(follows - {e}, e, u);
    assert follows - {e} + {e} == follows;
  }

  lemma LikersInsert(likes: set<Like>, l: Like, t: Target)
    requires l !in likes
    ensures |Likers(likes + {l}, t)| == |Likers(likes, t)| + (if l.target == t then 1 else 0)
  {
    if l.target == t {
      assert Likers(likes + {l}, t) == Likers(likes, t) + {l};
    } else {
      assert Likers(likes + {l}, t) == Likers(likes, t);
    }
  }

  lemma LikersRemove(likes: set<Like>, l: Like, t: Target)
    requires l in likes
    ensures |Likers(likes - {l}, t)| == |Likers(likes, t)| - (if l.target == t then 1 else 0)
  {
    LikersInsert(likes - {l}, l, t);
    assert likes - {l} + {l} == likes;
  }

  /** Which video a comment belongs to is all the comment count looks at. */
  lemma CommentsOnIgnoresLikes(a: map<Id, Comment>, b: map<Id, Comment>)
    requires a.Keys == b.Keys && forall c :: c in a ==> a[c].video == b[c].video
    ensures forall v :: CommentsOn(a, v) == CommentsOn(b, v)
  {
  }

  lemma CommentsOnInsert(comments: map<Id, Comment>, k: Id, c: Comment, v: Id)
    requires k !in comments
    ensures |CommentsOn(comments[k := c], v)| == |CommentsOn(comments, v)| + (if c.video == v then 1 else 0)
  {
    if c.video == v {
      assert CommentsOn(comments[k := c], v) == CommentsOn(comments, v) + {k};
    } else {
      assert CommentsOn(comments[k := c], v) == CommentsOn(comments, v);
    }
  }
}
