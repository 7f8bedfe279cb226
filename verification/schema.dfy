/** The five document schemas of the store: what a document must contain to
    be saved, the defaults it receives, the setters applied to its fields,
    and the unique indexes of the follow and like collections. */
module Schema {
  import opened Common

  // ---------------------------------------------------------------- video

  datatype Dimensions = Dimensions(width: nat, height: nat)

  /** The one frame size the application records: portrait 1080 by 1920. */
  const VideoDimensions: Dimensions := Dimensions(1080, 1920)

  /** The body handed to `Video.create`; `None` is an absent or null field. */
  datatype VideoInput = VideoInput(
    title: Option<string>,
    description: Option<string>,
    videoUrl: Option<string>,
    thumbnailUrl: Option<string>,
    controls: Option<bool>)

  /** A stored video. The two counters are the fields the like and comment
      handlers increment; `createdAt` is the timestamp the schema adds. */
  datatype Video = Video(
    title: string,
    description: string,
    videoUrl: string,
    thumbnailUrl: string,
    controls: bool,
    createdAt: int,
    likesCount: int,
    commentsCount: int)

  /** A required string path rejects an absent value and the empty string. */
  predicate Required(o: Option<string>)
  {
    Present(o)
  }

  predicate VideoInputValid(v: VideoInput)
  {
    Required(v.title) && Required(v.description) && Required(v.videoUrl) && Required(v.thumbnailUrl)
  }

  /** `Video.create`: validation, then the `controls` default. */
  function CreateVideo(v: VideoInput, now: int): (r: Option<Video>)
    ensures r.Some? <==> VideoInputValid(v)
    ensures r.Some? ==>
      && r.value.title == v.title.value && r.value.description == v.description.value
      && r.value.videoUrl == v.videoUrl.value && r.value.thumbnailUrl == v.thumbnailUrl.value
      && r.value.createdAt == now
    ensures r.Some? ==> r.value.likesCount == 0 && r.value.commentsCount == 0
    ensures r.Some? ==> (r.value.controls <==> v.controls != Some(false))
  {
    if !VideoInputValid(v) then None
    else
      var controls := if v.controls.Some? then v.controls.value else true;
      Some(Video(v.title.value, v.description.value, v.videoUrl.value, v.thumbnailUrl.value,
                 controls, now, 0, 0))
  }

  /** The paths the video schema declares. The like and comment handlers
      increment `likesCount` and `commentsCount`, which are not among them. */
  const VideoPathsAsWritten: set<string> :=
    {"title", "description", "videoUrl", "thumbnailUrl", "controls", "createdAt", "updatedAt"}

  /** The declared paths together with the two counters the handlers increment. */
  const VideoPaths: set<string> := VideoPathsAsWritten + {"likesCount", "commentsCount"}

  /** `$inc` of one numeric path under the default strict mode: an update of
      a path the schema does not declare is dropped. */
  function StrictInc(paths: set<string>, path: string, value: int, d: int): (r: int)
    ensures path in paths ==> r - value == d
    ensures path !in paths ==> r == value
  {
    if path in paths then value + d else value
  }

  // ---------------------------------------------------------------- user

  /** The fields handed to `User.create`, before the schema's setters run. */
  datatype UserInput = UserInput(
    email: Option<string>,
    username: Option<string>,
    password: Option<string>,
    displayName: Option<string>,
    bio: Option<string>)

  datatype User = User(
    email: string,
    username: string,
    password: string,
    displayName: Option<string>,
    bio: Option<string>,
    followersCount: int,
    followingCount: int,
    videosCount: int,
    isVerified: bool,
    isActive: bool)

  /** The `lowercase` and `trim` setters of the email and username paths:
      the value without the blanks at either end, lower-cased. */
  function NormalizeKey(s: string): (r: string)
    ensures exists i, j :: 0 <= i <= j <= |s| && AllSpace(s[..i]) && AllSpace(s[j..]) && r == Lower(s[i..j])
    ensures r != [] ==> !IsSpace(r[0]) && !IsSpace(r[|r| - 1])
    ensures forall i :: 0 <= i < |r| ==> !('A' <= r[i] <= 'Z')
  {
    var r := Lower(Trim(s));
    LowerTrimShape(s, r);
    r
  }

  /** The normal form of `s` is a lower-cased infix of `s` with blanks
      outside it and none at its ends. */
  lemma LowerTrimShape(s: string, r: string)
    requires r == Lower(Trim(s))
    ensures exists i, j :: 0 <= i <= j <= |s| && AllSpace(s[..i]) && AllSpace(s[j..]) && r == Lower(s[i..j])
    ensures r != [] ==> !IsSpace(r[0]) && !IsSpace(r[|r| - 1])
    ensures forall i :: 0 <= i < |r| ==> !('A' <= r[i] <= 'Z')
  {
    var a, b := TrimBounds(s);
    SpacesBefore(s, a);
    SpacesFrom(s, b);
    LowerKeepsSpaces(Trim(s));
  }

  /** Keys compare without regard to letter case or to blanks around them,
      and normalising a normalised key changes nothing. */
  lemma {:induction false} NormalizeKeyIgnoresCaseAndBlanks(s: string, p: string, q: string)
    requires AllSpace(p) && AllSpace(q)
    ensures NormalizeKey(Lower(s)) == NormalizeKey(s)
    ensures NormalizeKey(p + s + q) == NormalizeKey(s)
    ensures NormalizeKey(NormalizeKey(s)) == NormalizeKey(s)
  {
    TrimLower(s);
    TrimLower(Trim(s));
    TrimPadded(p, s, q);
    TrimIdempotent(s);
  }

  function MapOption(o: Option<string>, f: string -> string): Option<string>
  {
    if o.Some? then Some(f(o.value)) else None
  }

  /** The input after the setters: email and username lower-cased and
      trimmed, the display name trimmed. */
  function ApplyUserSetters(u: UserInput): UserInput
  {
    UserInput(MapOption(u.email, NormalizeKey), MapOption(u.username, NormalizeKey),
              u.password, MapOption(u.displayName, Trim), u.bio)
  }

  /** Validators on the set values: required email, username of 5 to 20
      characters, password of at least 6, display name at most 50, bio at
      most 150. The limits count JavaScript length, in UTF-16 code units. */
  predicate UserFieldsValid(u: UserInput)
  {
    && Required(u.email)
    && Required(u.username) && 5 <= JsLength(u.username.value) <= 20
    && Required(u.password) && JsLength(u.password.value) >= 6
    && (u.displayName.Some? ==> JsLength(u.displayName.value) <= 50)
    && (u.bio.Some? ==> JsLength(u.bio.value) <= 150)
  }

  predicate UserInputValid(u: UserInput)
  {
    UserFieldsValid(ApplyUserSetters(u))
  }

  /** The pre-save hook: the password is replaced by its hash only when the
      password path was modified. `hash` stands for the salted bcrypt hash. */
  function SaveUser(u: User, passwordModified: bool, hash: string -> string): (r: User)
    ensures r.password == (if passwordModified then hash(u.password) else u.password)
    ensures r.(password := u.password) == u
  {
    if passwordModified then u.(password := hash(u.password)) else u
  }

  /** `User.create`: setters, validation, defaults (counters 0, not verified,
      active), then the pre-save hook, for which every path of a new document
      counts as modified. */
  function CreateUser(u: UserInput, hash: string -> string): (r: Option<User>)
    ensures r.Some? <==> UserInputValid(u)
    ensures r.Some? ==>
      && r.value.email == NormalizeKey(u.email.value)
      && r.value.username == NormalizeKey(u.username.value)
      && r.value.password == hash(u.password.value)
    ensures r.Some? ==>
      && r.value.followersCount == 0 && r.value.followingCount == 0 && r.value.videosCount == 0
      && !r.value.isVerified && r.value.isActive
  {
    var s := ApplyUserSetters(u);
    if !UserFieldsValid(s) then None
    else
      var created := User(s.email.value, s.username.value, s.password.value, s.displayName, s.bio,
                        0, 0, 0, false, true);
      Some(SaveUser(created, true, hash))
  }

  /** Saving a user whose password was not touched never re-hashes it, so a
      stored hash is not hashed twice. */
  lemma SaveUnmodifiedKeepsPassword(u: User, hash: string -> string)
    ensures SaveUser(SaveUser(u, true, hash), false, hash).password == hash(u.password)
  {
  }

  // ---------------------------------------------------------------- comment

  datatype CommentInput = CommentInput(content: Option<string>, author: Option<Id>, video: Option<Id>)

  datatype Comment = Comment(content: string, author: Id, video: Id, likesCount: int, createdAt: int)

  const MaxCommentLength := 200

  predicate CommentInputValid(c: CommentInput)
  {
    Required(c.content) && JsLength(c.content.value) <= MaxCommentLength && c.author.Some? && c.video.Some?
  }

  /** `Comment.create`: validation, then `likesCount` defaults to 0. The
      200 limit counts UTF-16 code units. */
  function CreateComment(c: CommentInput, now: int): (r: Option<Comment>)
    ensures r.Some? <==> CommentInputValid(c)
    ensures r.Some? ==>
      && r.value.content == c.content.value && 0 < JsLength(r.value.content) <= 200
      && r.value.author == c.author.value && r.value.video == c.video.value
      && r.value.likesCount == 0 && r.value.createdAt == now
  {
    if !CommentInputValid(c) then None
    else Some(Comment(c.content.value, c.author.value, c.video.value, 0, now))
  }

  /** The comment limit counts code units: 101 characters outside the Basic
      Multilingual Plane are 202 units and are refused, while 200 plain
      characters are accepted. */
  lemma {:induction false} CommentLimitCountsCodeUnits(author: Id, video: Id, now: int)
    ensures var wide := seq(101, _ => '\U{1F600}');
      |wide| == 101 && CreateComment(CommentInput(Some(wide), Some(author), Some(video)), now).None?
    ensures CreateComment(CommentInput(Some(seq(200, _ => 'a')), Some(author), Some(video)), now).Some?
  {
    JsLengthRepeat('\U{1F600}', 101);
    JsLengthRepeat('a', 200);
  }

  /** The user limits count code units too: a username of four characters,
      one of them outside the Basic Multilingual Plane, is five units long
      and accepted, and so is a password of three such characters. */
  lemma {:induction false} UserLimitsCountCodeUnits()
    ensures |"ab\U{1F600}c"| == 4 && JsLength("ab\U{1F600}c") == 5
    ensures UserInputValid(UserInput(Some("a@b.c"), Some("ab\U{1F600}c"), Some("\U{1F600}\U{1F600}\U{1F600}"), None, None))
  {
    FiveUnitName();
    SixUnitPassword();
    KeyUnchanged("ab\U{1F600}c");
    KeyUnchanged("a@b.c");
    ExampleUserValid();
  }

  lemma {:induction false} FiveUnitName()
    ensures JsLength("ab\U{1F600}c") == 5
  {
    var name := "ab\U{1F600}c";
    assert name[1..] == "b\U{1F600}c";
    assert name[1..][1..] == "\U{1F600}c" && name[1..][1..][1..] == "c";
    assert JsLength("c") == 1;
  }

  lemma {:induction false} SixUnitPassword()
    ensures JsLength("\U{1F600}\U{1F600}\U{1F600}") == 6
  {
    JsLengthRepeat('\U{1F600}', 3);
    assert seq(3, _ => '\U{1F600}') == "\U{1F600}\U{1F600}\U{1F600}";
  }

  lemma ExampleUserValid()
    requires JsLength("ab\U{1F600}c") == 5 && JsLength("\U{1F600}\U{1F600}\U{1F600}") == 6
    requires NormalizeKey("ab\U{1F600}c") == "ab\U{1F600}c" && NormalizeKey("a@b.c") == "a@b.c"
    ensures UserInputValid(UserInput(Some("a@b.c"), Some("ab\U{1F600}c"), Some("\U{1F600}\U{1F600}\U{1F600}"), None, None))
  {
  }

  /** A key without blanks at its ends or upper-case letters is its own
      normal form. */
  lemma {:induction false} KeyUnchanged(s: string)
    requires s != [] && !IsSpace(s[0]) && !IsSpace(s[|s| - 1])
    requires forall i :: 0 <= i < |s| ==> !('A' <= s[i] <= 'Z')
    ensures NormalizeKey(s) == s
  {
    assert s[..0] == [] && s[|s|..] == [];
    TrimUnique(s, 0, |s|);
    assert s[0..|s|] == s;
  }

  // ---------------------------------------------------------------- edges

  /** A follow edge, ordered: `follower` follows `following`. */
  datatype Follow = Follow(follower: Id, following: Id)

  /** The target of a like is a video or a comment. */
  datatype Target = VideoTarget(id: Id) | CommentTarget(id: Id)

  datatype Like = Like(user: Id, target: Target)

  /** A follow document as the schema sees it: both references are required. */
  datatype FollowDoc = FollowDoc(follower: Option<Id>, following: Option<Id>)

  predicate FollowDocValid(d: FollowDoc)
  {
    d.follower.Some? && d.following.Some?
  }

  /** Two follow documents collide on the unique (follower, following) index. */
  predicate FollowClash(a: FollowDoc, b: FollowDoc)
  {
    a.follower == b.follower && a.following == b.following
  }

  /** A like document: `user` is required, `video` and `comment` are optional. */
  datatype LikeDoc = LikeDoc(user: Option<Id>, video: Option<Id>, comment: Option<Id>)

  predicate LikeDocValid(d: LikeDoc)
  {
    d.user.Some?
  }

  /** Two like documents collide on one of the two partial unique indexes:
      (user, video) among documents with a video, (user, comment) among
      documents with a comment. */
  predicate LikeClash(a: LikeDoc, b: LikeDoc)
  {
    || (a.video.Some? && b.video.Some? && a.user == b.user && a.video == b.video)
    || (a.comment.Some? && b.comment.Some? && a.user == b.user && a.comment == b.comment)
  }

  predicate FollowIndexHolds(docs: seq<FollowDoc>)
  {
    forall i, j :: 0 <= i < j < |docs| ==> !FollowClash(docs[i], docs[j])
  }

  predicate LikeIndexesHold(docs: seq<LikeDoc>)
  {
    forall i, j :: 0 <= i < j < |docs| ==> !LikeClash(docs[i], docs[j])
  }

  /** Inserting a follow document: a schema violation or a duplicate key
      rejects it, otherwise it is appended. */
  function InsertFollow(docs: seq<FollowDoc>, d: FollowDoc): (r: Option<seq<FollowDoc>>)
    ensures r.Some? <==> FollowDocValid(d) && forall i :: 0 <= i < |docs| ==> !FollowClash(docs[i], d)
    ensures r.Some? ==> r.value == docs + [d]
    ensures r.Some? && FollowIndexHolds(docs) ==> FollowIndexHolds(r.value)
  {
    if FollowDocValid(d) && forall i :: 0 <= i < |docs| ==> !FollowClash(docs[i], d) then
      var r := docs + [d];
      assert forall j :: 0 <= j < |docs| ==> r[j] == docs[j];
      Some(r)
    else None
  }

  function InsertLike(docs: seq<LikeDoc>, d: LikeDoc): (r: Option<seq<LikeDoc>>)
    ensures r.Some? <==> LikeDocValid(d) && forall i :: 0 <= i < |docs| ==> !LikeClash(docs[i], d)
    ensures r.Some? ==> r.value == docs + [d]
    ensures r.Some? && LikeIndexesHold(docs) ==> LikeIndexesHold(r.value)
  {
    if LikeDocValid(d) && forall i :: 0 <= i < |docs| ==> !LikeClash(docs[i], d) then
      var r := docs + [d];
      assert forall j :: 0 <= j < |docs| ==> r[j] == docs[j];
      Some(r)
    else None
  }

  /** The schema accepts a self-follow: only the follow handler forbids it. */
  lemma SelfFollowPassesSchema(a: Id)
    ensures InsertFollow([], FollowDoc(Some(a), Some(a))) == Some([FollowDoc(Some(a), Some(a))])
  {
    assert [] + [FollowDoc(Some(a), Some(a))] == [FollowDoc(Some(a), Some(a))];
  }

  /** The follow index is ordered: an existing (a, b) never blocks (b, a). */
  lemma {:induction false} ReverseFollowNotBlocked(docs: seq<FollowDoc>, a: Id, b: Id)
    requires a != b
    requires forall i :: 0 <= i < |docs| ==> docs[i] != FollowDoc(Some(b), Some(a))
    ensures InsertFollow(docs, FollowDoc(Some(b), Some(a))).Some?
  {
    forall i | 0 <= i < |docs|
      ensures !FollowClash(docs[i], FollowDoc(Some(b), Some(a)))
    {
    }
  }

  /** The two like indexes are independent: whatever video likes a user has,
      a first like of a comment by that user is accepted. */
  lemma {:induction false} CommentLikeIgnoresVideoLikes(docs: seq<LikeDoc>, u: Id, c: Id)
    requires forall i :: 0 <= i < |docs| ==> docs[i].comment != Some(c) || docs[i].user != Some(u)
    ensures InsertLike(docs, LikeDoc(Some(u), None, Some(c))).Some?
  {
    forall i | 0 <= i < |docs|
      ensures !LikeClash(docs[i], LikeDoc(Some(u), None, Some(c)))
    {
    }
  }

  /** The document a follow edge is stored as. */
  function FollowDocOf(f: Follow): (d: FollowDoc)
    ensures FollowDocValid(d)
  {
    FollowDoc(Some(f.follower), Some(f.following))
  }

  /** The document a like edge is stored as: exactly one of `video` and `comment` is set. */
  function LikeDocOf(l: Like): (d: LikeDoc)
    ensures LikeDocValid(d) && (d.video.Some? != d.comment.Some?)
  {
    match l.target
    case VideoTarget(v) => LikeDoc(Some(l.user), Some(v), None)
    case CommentTarget(c) => LikeDoc(Some(l.user), None, Some(c))
  }

  /** Two follow edges collide on the index exactly when they are the same
      edge, so a set of edges is what the unique index keeps. */
  lemma FollowClashIsEquality(f: Follow, g: Follow)
    ensures FollowClash(FollowDocOf(f), FollowDocOf(g)) <==> f == g
  {
  }

  /** Two like edges collide on either index exactly when they are the same edge. */
  lemma LikeClashIsEquality(l: Like, m: Like)
    ensures LikeClash(LikeDocOf(l), LikeDocOf(m)) <==> l == m
  {
  }
}
