/** The follow endpoints: `POST /api/follow` (idempotent create),
    `DELETE /api/follow` (unfollow) and `GET /api/follow/check`. */
module FollowRoutes {
  import opened Common
  import opened Schema
  import opened Store

  /** The store after `me` starts (d = 1) or stops (d = -1) following `t`:
      `me`'s following count and `t`'s follower count move by d, nothing else
      but the follow edges changes. */
  predicate FollowCountersMoved(s: Store, s': Store, me: Id, t: Id, d: int)
  {
    && s'.videos == s.videos && s'.comments == s.comments && s'.likes == s.likes
    && s'.users.Keys == s.users.Keys
    && forall k :: k in s.users ==>
         s'.users[k] == s.users[k].(
           followingCount := s.users[k].followingCount + (if k == me then d else 0),
           followersCount := s.users[k].followersCount + (if k == t then d else 0))
  }

  /** The two `$inc` writes of a follow (d = 1) or unfollow (d = -1): first
      `me`'s following count, then `t`'s follower count. */
  function ShiftFollowCounters(s: Store, me: Id, t: Id, d: int): (s': Store)
    requires Wf(s)
    ensures Wf(s') && s'.follows == s.follows
    ensures FollowCountersMoved(s, s', me, t, d)
  {
    var twice := BumpFollowers(BumpFollowing(s.users, me, d), t, d);
    BumpBothMoves(s, me, t, d);
    s.(users := twice)
  }

  lemma BumpBothMoves(s: Store, me: Id, t: Id, d: int)
    requires Wf(s)
    ensures var s' := s.(users := BumpFollowers(BumpFollowing(s.users, me, d), t, d));
      Wf(s') && FollowCountersMoved(s, s', me, t, d)
  {
    var twice := BumpFollowers(BumpFollowing(s.users, me, d), t, d);
    BumpBothKeepsKeys(s.users, me, t, d);
    WfBySameKeys(s, s.(users := twice));
    BumpBothCounters(s.users, me, t, d);
  }

  /** The counter writes change no email and no username. */
  lemma BumpBothKeepsKeys(users: map<Id, User>, me: Id, t: Id, d: int)
    ensures SameUserKeys(users, BumpFollowers(BumpFollowing(users, me, d), t, d))
  {
    var once := BumpFollowing(users, me, d);
    assert SameUserKeys(users, once);
    assert SameUserKeys(once, BumpFollowers(once, t, d));
  }

  /** The counter writes move exactly `me`'s following count and `t`'s follower count. */
  lemma BumpBothCounters(users: map<Id, User>, me: Id, t: Id, d: int)
    ensures var twice := BumpFollowers(BumpFollowing(users, me, d), t, d);
      twice.Keys == users.Keys &&
      forall k :: k in users ==>
        twice[k] == users[k].(
          followingCount := users[k].followingCount + (if k == me then d else 0),
          followersCount := users[k].followersCount + (if k == t then d else 0))
  {
    var once := BumpFollowing(users, me, d);
    var twice := BumpFollowers(once, t, d);
    forall k | k in users
      ensures twice[k] == users[k].(
           followingCount := users[k].followingCount + (if k == me then d else 0),
           followersCount := users[k].followersCount + (if k == t then d else 0))
    {
      var a := if k == me then users[k].(followingCount := users[k].followingCount + d) else users[k];
      assert once[k] == a;
      assert twice[k] == if k == t then a.(followersCount := a.followersCount + d) else a;
    }
  }

  /** Moving the counters by d and then by -d gives back the users unchanged. */
  lemma ShiftBackRestores(s: Store, s1: Store, s2: Store, me: Id, t: Id, d: int)
    requires FollowCountersMoved(s, s1, me, t, d) && FollowCountersMoved(s1, s2, me, t, -d)
    ensures s2.users == s.users
  {
    assert s2.users.Keys == s.users.Keys;
    forall k | k in s.users
      ensures s2.users[k] == s.users[k]
    {
    }
  }

  /** The create path of `POST /api/follow` is taken: a signed-in caller with a
      user record names another existing user it does not follow yet. */
  predicate FollowCreates(session: Session, followingId: Option<string>, s: Store)
    requires Wf(s)
  {
    && SignedIn(session)
    && Caller(session, s).Some?
    && followingId.Some?
    && followingId.value != Caller(session, s).value
    && followingId.value in s.users
    && Follow(Caller(session, s).value, followingId.value) !in s.follows
  }

  /** `POST /api/follow`. The checks run in the handler's order: session, the
      caller's user record, self-follow, the target's existence, an existing
      edge; only a fresh follow writes. */
  function FollowPost(session: Session, followingId: Option<string>, s: Store): (r: Step)
    requires Wf(s)
    ensures Wf(r.store)
    ensures !SignedIn(session) ==> r == Reply(401, Failure("Unauthorized"), s)
    ensures SignedIn(session) && Caller(session, s).None? ==> r == Reply(404, Failure("User not found"), s)
    ensures SignedIn(session) && Caller(session, s).Some? && followingId == Some(Caller(session, s).value) ==>
      r == Reply(400, Failure("Cannot follow yourself"), s)
    ensures SignedIn(session) && Caller(session, s).Some? && followingId != Some(Caller(session, s).value)
            && (followingId.None? || followingId.value !in s.users) ==>
      r == Reply(404, Failure("User to follow not found"), s)
    ensures SignedIn(session) && Caller(session, s).Some? && followingId.Some?
            && followingId.value in s.users && followingId.value != Caller(session, s).value
            && Follow(Caller(session, s).value, followingId.value) in s.follows ==>
      r == Reply(200, AlreadyFollowing, s)
    ensures FollowCreates(session, followingId, s) ==>
      var me := Caller(session, s).value;
      var t := followingId.value;
      && r.response == Response(200, Done("Followed Successfully"))
      && r.store.follows == s.follows + {Follow(me, t)}
      && FollowCountersMoved(s, r.store, me, t, 1)
    ensures !FollowCreates(session, followingId, s) ==> r.store == s
  {
    if !SignedIn(session) then Reply(401, Failure("Unauthorized"), s)
    else match Caller(session, s)
      case None => Reply(404, Failure("User not found"), s)
      case Some(me) =>
        if followingId == Some(me) then Reply(400, Failure("Cannot follow yourself"), s)
        else if followingId.None? || followingId.value !in s.users then
          Reply(404, Failure("User to follow not found"), s)
        else
          var t := followingId.value;
          if Follow(me, t) in s.follows then Reply(200, AlreadyFollowing, s)
          else
            var s' := ShiftFollowCounters(s, me, t, 1).(follows := s.follows + {Follow(me, t)});
            Reply(200, Done("Followed Successfully"), s')
  }

  /** `DELETE /api/follow?followingId=…`. Unlike the create path, the missing
      parameter is reported before the caller is looked up. */
  function FollowDelete(session: Session, followingId: Option<string>, s: Store): (r: Step)
    requires Wf(s)
    ensures Wf(r.store)
    ensures !SignedIn(session) ==> r == Reply(401, Failure("Unauthorized"), s)
    ensures SignedIn(session) && !Present(followingId) ==> r == Reply(400, Failure("Missing Following id"), s)
    ensures SignedIn(session) && Present(followingId) && Caller(session, s).None? ==>
      r == Reply(404, Failure("User not found"), s)
    ensures SignedIn(session) && Present(followingId) && Caller(session, s).Some?
            && Follow(Caller(session, s).value, followingId.value) !in s.follows ==>
      r == Reply(400, Failure("Not Following"), s)
    ensures SignedIn(session) && Present(followingId) && Caller(session, s).Some?
            && Follow(Caller(session, s).value, followingId.value) in s.follows ==>
      var me := Caller(session, s).value;
      var t := followingId.value;
      && r.response == Response(200, Done("Unfollowed Successfully"))
      && r.store.follows == s.follows - {Follow(me, t)}
      && FollowCountersMoved(s, r.store, me, t, -1)
  {
    if !SignedIn(session) then Reply(401, Failure("Unauthorized"), s)
    else if !Present(followingId) then Reply(400, Failure("Missing Following id"), s)
    else match Caller(session, s)
      case None => Reply(404, Failure("User not found"), s)
      case Some(me) =>
        var t := followingId.value;
        if Follow(me, t) !in s.follows then Reply(400, Failure("Not Following"), s)
        else
          var s' := ShiftFollowCounters(s, me, t, -1).(follows := s.follows - {Follow(me, t)});
          Reply(200, Done("Unfollowed Successfully"), s')
  }

  /** `GET /api/follow/check?userId=…`. A missing `userId` answers 404, not 400. */
  function FollowCheck(session: Session, userId: Option<string>, s: Store): (r: Step)
    requires Wf(s)
    ensures r.store == s
    ensures !SignedIn(session) ==> r.response == Response(401, Failure("Unauthorized"))
    ensures SignedIn(session) && !Present(userId) ==> r.response == Response(404, Failure("Missing userId"))
    ensures SignedIn(session) && Present(userId) && Caller(session, s).None? ==>
      r.response == Response(404, Failure("User not found"))
    ensures r.response.status == 200 <==> SignedIn(session) && Present(userId) && Caller(session, s).Some?
    ensures r.response.status == 200 ==>
      r.response.body == FollowStatus(Follow(Caller(session, s).value, userId.value) in s.follows)
  {
    if !SignedIn(session) then Reply(401, Failure("Unauthorized"), s)
    else if !Present(userId) then Reply(404, Failure("Missing userId"), s)
    else match Caller(session, s)
      case None => Reply(404, Failure("User not found"), s)
      case Some(me) => Reply(200, FollowStatus(Follow(me, userId.value) in s.follows), s)
  }

  // ------------------------------------------------------------- properties

  /** Following changes no email, so the caller resolved afterwards is the same user. */
  lemma CallerStable(session: Session, s: Store, s': Store)
    requires SignedIn(session) && Wf(s)
    requires s'.users.Keys == s.users.Keys
    requires forall k :: k in s.users ==> s'.users[k].email == s.users[k].email
    ensures EmailsUnique(s'.users)
    ensures Caller(session, s') == Caller(session, s)
  {
    FindUserIgnoresCounters(s.users, s'.users, session.email.value);
  }

  /** Following twice is following once: the second request answers
      "Already following" and writes nothing. */
  lemma {:induction false} FollowIdempotent(session: Session, followingId: Option<string>, s: Store)
    requires Wf(s)
    requires FollowPost(session, followingId, s).response.status == 200
    ensures var s1 := FollowPost(session, followingId, s).store;
      FollowPost(session, followingId, s1) == Reply(200, AlreadyFollowing, s1)
  {
    var s1 := FollowPost(session, followingId, s).store;
    CallerStable(session, s, s1);
  }

  /** Unfollowing right after a fresh follow restores the store exactly:
      the edge set and both counters. */
  lemma {:induction false} UnfollowUndoesFollow(session: Session, followingId: Option<string>, s: Store)
    requires Wf(s)
    requires FollowCreates(session, followingId, s)
    ensures FollowDelete(session, followingId, FollowPost(session, followingId, s).store).store == s
  {
    var me := Caller(session, s).value;
    var t := followingId.value;
    var e := Follow(me, t);
    var s1 := FollowPost(session, followingId, s).store;
    assert s1.follows == s.follows + {e} && FollowCountersMoved(s, s1, me, t, 1);
    CallerStable(session, s, s1);
    assert Present(followingId) && e in s1.follows;
    var s2 := FollowDelete(session, followingId, s1).store;
    assert s2.follows == s1.follows - {e} && FollowCountersMoved(s1, s2, me, t, -1);
    assert s2.follows == s.follows;
    ShiftBackRestores(s, s1, s2, me, t, 1);
  }

  /** After either 200 answer of `POST /api/follow`, the check reports the edge. */
  lemma {:induction false} CheckSeesFollow(session: Session, t: Id, s: Store)
    requires Wf(s)
    requires FollowPost(session, Some(t), s).response.status == 200
    ensures FollowCheck(session, Some(t), FollowPost(session, Some(t), s).store).response
            == Response(200, FollowStatus(true))
  {
    var s1 := FollowPost(session, Some(t), s).store;
    CallerStable(session, s, s1);
  }

  /** After a successful unfollow, the check reports no edge. */
  lemma {:induction false} CheckSeesUnfollow(session: Session, t: Id, s: Store)
    requires Wf(s)
    requires FollowDelete(session, Some(t), s).response.status == 200
    ensures FollowCheck(session, Some(t), FollowDelete(session, Some(t), s).store).response
            == Response(200, FollowStatus(false))
  {
    var s1 := FollowDelete(session, Some(t), s).store;
    CallerStable(session, s, s1);
  }

  /** Moving both follow counters along with the edge keeps every counter
      equal to its edge count. */
  lemma {:induction false} MovedCountersAgree(s: Store, s': Store, me: Id, t: Id, d: int)
    requires CountersAgree(s)
    requires me != t
    requires d == 1 ==> Follow(me, t) !in s.follows && s'.follows == s.follows + {Follow(me, t)}
    requires d == -1 ==> Follow(me, t) in s.follows && s'.follows == s.follows - {Follow(me, t)}
    requires d == 1 || d == -1
    requires FollowCountersMoved(s, s', me, t, d)
    ensures CountersAgree(s')
  {
    forall u | u in s'.users
      ensures s'.users[u].followersCount == |Followers(s'.follows, u)|
      ensures s'.users[u].followingCount == |Followees(s'.follows, u)|
    {
      if d == 1 {
        FollowersInsert(s.follows, Follow(me, t), u);
      } else {
        FollowersRemove(s.follows, Follow(me, t), u);
      }
    }
  }

  lemma {:induction false} FollowPostKeepsCounters(session: Session, followingId: Option<string>, s: Store)
    requires Wf(s) && CountersAgree(s)
    ensures CountersAgree(FollowPost(session, followingId, s).store)
  {
    if FollowCreates(session, followingId, s) {
      MovedCountersAgree(s, FollowPost(session, followingId, s).store,
                         Caller(session, s).value, followingId.value, 1);
    }
  }

  lemma {:induction false} FollowDeleteKeepsCounters(session: Session, followingId: Option<string>, s: Store)
    requires Wf(s) && CountersAgree(s)
    ensures CountersAgree(FollowDelete(session, followingId, s).store)
  {
    var r := FollowDelete(session, followingId, s);
    if r.store != s {
      var me := Caller(session, s).value;
      var t := followingId.value;
      if me == t {
        // a self edge was never created by the create path, but the store
        // may hold one; both counters of `me` then drop together
        SelfUnfollowKeepsCounters(s, r.store, me);
      } else {
        MovedCountersAgree(s, r.store, me, t, -1);
      }
    }
  }

  lemma {:induction false} SelfUnfollowKeepsCounters(s: Store, s': Store, me: Id)
    requires CountersAgree(s)
    requires Follow(me, me) in s.follows && s'.follows == s.follows - {Follow(me, me)}
    requires FollowCountersMoved(s, s', me, me, -1)
    ensures CountersAgree(s')
  {
    forall u | u in s'.users
      ensures s'.users[u].followersCount == |Followers(s'.follows, u)|
      ensures s'.users[u].followingCount == |Followees(s'.follows, u)|
    {
      FollowersRemove(s.follows, Follow(me, me), u);
    }
  }
}
