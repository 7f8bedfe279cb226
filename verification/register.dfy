/** `POST /api/auth/register`: reject a missing email or password, reject an
    email already on file, otherwise create the user. The handler as written
    passes only `{ email, password }` to `User.create`, while the schema
    requires a username: `RegisterAsWritten` models that code and never
    succeeds; `Register` is the evidently intended handler, which also passes
    the body's `username`, and is the one the rest of the model reasons about. */
module RegisterRoute {
  import opened Common
  import opened Schema
  import opened Store

  /** An insert under `newId` that the unique indexes (`_id`, `email`,
      `username`) accept. */
  predicate Insertable(users: map<Id, User>, newId: Id, u: User)
  {
    && newId !in users
    && (forall k :: k in users ==> users[k].email != u.email)
    && (forall k :: k in users ==> users[k].username != u.username)
  }

  lemma InsertKeepsWf(s: Store, newId: Id, u: User)
    requires Wf(s) && newId != "" && Insertable(s.users, newId, u)
    ensures Wf(s.(users := s.users[newId := u]))
  {
  }

  /** `User.create` followed by the insert: a document the schema rejects, or
      one the unique indexes reject, throws into the 500 branch. */
  function CreateAndInsert(input: UserInput, newId: Id, hash: string -> string, s: Store): (r: Step)
    requires Wf(s) && newId != ""
    ensures Wf(r.store)
    ensures r.response.status == 201 <==>
      CreateUser(input, hash).Some? && Insertable(s.users, newId, CreateUser(input, hash).value)
    ensures r.response.status == 201 ==>
      && r.response.body == Bare("Successfully registered")
      && r.store == s.(users := s.users[newId := CreateUser(input, hash).value])
    ensures r.response.status != 201 ==> r == Reply(500, Bare("Failed to register"), s)
  {
    match CreateUser(input, hash)
    case None => Reply(500, Bare("Failed to register"), s)
    case Some(u) =>
      if !Insertable(s.users, newId, u) then Reply(500, Bare("Failed to register"), s)
      else
        InsertKeepsWf(s, newId, u);
        Reply(201, Bare("Successfully registered"), s.(users := s.users[newId := u]))
  }

  /** The handler as written: the existence check looks the email up (the
      query value goes through the email setters), then `User.create` gets
      only the email and the password. */
  function RegisterAsWritten(email: Option<string>, password: Option<string>, newId: Id,
                             hash: string -> string, s: Store): (r: Step)
    requires Wf(s) && newId != ""
    ensures !Present(email) || !Present(password) ==>
      r == Reply(400, Bare("Email and pasword are required"), s)
    ensures Present(email) && Present(password) && FindUser(s.users, email.value).Some? ==>
      r == Reply(400, Bare("Email already registered"), s)
  {
    if !Present(email) || !Present(password) then Reply(400, Bare("Email and pasword are required"), s)
    else if FindUser(s.users, email.value).Some? then Reply(400, Bare("Email already registered"), s)
    else CreateAndInsert(UserInput(email, None, password, None, None), newId, hash, s)
  }

  /** The finding: the handler as written registers nobody. Every request
      that passes both checks fails validation on the missing username and
      answers 500, and the store never changes. */
  lemma AsWrittenNeverRegisters(email: Option<string>, password: Option<string>, newId: Id,
                                hash: string -> string, s: Store)
    requires Wf(s) && newId != ""
    ensures RegisterAsWritten(email, password, newId, hash, s).response.status != 201
    ensures RegisterAsWritten(email, password, newId, hash, s).store == s
    ensures Present(email) && Present(password) && FindUser(s.users, email.value).None? ==>
      RegisterAsWritten(email, password, newId, hash, s) == Reply(500, Bare("Failed to register"), s)
  {
    assert !UserInputValid(UserInput(email, None, password, None, None));
  }

  /** The evidently intended handler: as written, but `User.create` also gets
      the body's `username`. */
  function Register(email: Option<string>, username: Option<string>, password: Option<string>, newId: Id,
                    hash: string -> string, s: Store): (r: Step)
    requires Wf(s) && newId != ""
    ensures Wf(r.store)
    ensures !Present(email) || !Present(password) ==>
      r == Reply(400, Bare("Email and pasword are required"), s)
    ensures Present(email) && Present(password) && FindUser(s.users, email.value).Some? ==>
      r == Reply(400, Bare("Email already registered"), s)
    ensures r.response.status == 201 ==>
      && r.response.body == Bare("Successfully registered")
      && newId !in s.users
      && var c := CreateUser(UserInput(email, username, password, None, None), hash);
         c.Some? && r.store == s.(users := s.users[newId := c.value])
    ensures r.response.status !in {201, 400} ==> r == Reply(500, Bare("Failed to register"), s)
  {
    if !Present(email) || !Present(password) then Reply(400, Bare("Email and pasword are required"), s)
    else if FindUser(s.users, email.value).Some? then Reply(400, Bare("Email already registered"), s)
    else CreateAndInsert(UserInput(email, username, password, None, None), newId, hash, s)
  }

  // ------------------------------------------------------------- properties

  /** What a successful registration stores: the email and username as the
      setters leave them, the hashed password, zero counters, an active and
      unverified account, findable afterwards by the email as typed. */
  lemma {:induction false} RegisteredUserFindable(email: Option<string>, username: Option<string>,
                                                  password: Option<string>, newId: Id,
                                                  hash: string -> string, s: Store)
    requires Wf(s) && newId != ""
    requires Register(email, username, password, newId, hash, s).response.status == 201
    ensures var s' := Register(email, username, password, newId, hash, s).store;
      && newId in s'.users
      && s'.users[newId].email == NormalizeKey(email.value)
      && s'.users[newId].username == NormalizeKey(username.value)
      && s'.users[newId].password == hash(password.value)
      && s'.users[newId].followersCount == 0 && s'.users[newId].followingCount == 0
      && s'.users[newId].isActive && !s'.users[newId].isVerified
      && FindUser(s'.users, email.value) == Some(newId)
  {
    var r := Register(email, username, password, newId, hash, s);
    var c := CreateUser(UserInput(email, username, password, None, None), hash);
    assert c.Some? && r.store == s.(users := s.users[newId := c.value]);
    var u := c.value;
    assert u.email == NormalizeKey(email.value);
    var found := FindUser(r.store.users, email.value);
    assert r.store.users[newId].email == NormalizeKey(email.value);
    assert found.Some?;
    assert r.store.users[found.value].email == r.store.users[newId].email;
  }

  /** What a successful create-and-insert step needed: input the schema
      accepts, a free id, and no user already holding the normalised email
      or username. */
  lemma CreateAndInsertNeeds(input: UserInput, newId: Id, hash: string -> string, s: Store)
    requires Wf(s) && newId != ""
    requires CreateAndInsert(input, newId, hash, s).response.status == 201
    ensures UserInputValid(input) && newId !in s.users
    ensures forall k :: k in s.users ==> s.users[k].email != NormalizeKey(input.email.value)
    ensures forall k :: k in s.users ==> s.users[k].username != NormalizeKey(input.username.value)
  {
  }

  /** Those conditions are enough for the step to succeed. */
  lemma CreateAndInsertSucceeds(input: UserInput, newId: Id, hash: string -> string, s: Store)
    requires Wf(s) && newId != ""
    requires UserInputValid(input) && newId !in s.users
    requires forall k :: k in s.users ==> s.users[k].email != NormalizeKey(input.email.value)
    requires forall k :: k in s.users ==> s.users[k].username != NormalizeKey(input.username.value)
    ensures CreateAndInsert(input, newId, hash, s).response.status == 201
  {
  }

  /** Registration succeeds exactly when the email and password are present,
      the normalised email and username are unused, the fields pass the
      schema's validators, and the id is free. */
  lemma {:induction false} RegisterSucceedsIff(email: Option<string>, username: Option<string>,
                                               password: Option<string>, newId: Id,
                                               hash: string -> string, s: Store)
    requires Wf(s) && newId != ""
    ensures Register(email, username, password, newId, hash, s).response.status == 201 <==>
      && Present(email) && Present(password)
      && UserInputValid(UserInput(email, username, password, None, None))
      && newId !in s.users
      && (forall k :: k in s.users ==> s.users[k].email != NormalizeKey(email.value))
      && (forall k :: k in s.users ==> s.users[k].username != NormalizeKey(username.value))
  {
    var input := UserInput(email, username, password, None, None);
    if Present(email) && Present(password) {
      if FindUser(s.users, email.value).Some? {
        var k := FindUser(s.users, email.value).value;
        assert s.users[k].email == NormalizeKey(email.value);
      } else {
        var r := Register(email, username, password, newId, hash, s);
        assert r == CreateAndInsert(input, newId, hash, s);
        if r.response.status == 201 {
          CreateAndInsertNeeds(input, newId, hash, s);
        }
        if && UserInputValid(input) && newId !in s.users
           && (forall k :: k in s.users ==> s.users[k].email != NormalizeKey(email.value))
           && (forall k :: k in s.users ==> s.users[k].username != NormalizeKey(username.value)) {
          CreateAndInsertSucceeds(input, newId, hash, s);
        }
      }
    }
  }

  /** A second registration of the same email, in any letter case or with
      surrounding blanks, is refused as already registered. */
  lemma {:induction false} NoDoubleRegistration(email: Option<string>, username: Option<string>,
                                                password: Option<string>, again: string, newId: Id, otherId: Id,
                                                hash: string -> string, s: Store)
    requires Wf(s) && newId != "" && otherId != ""
    requires Register(email, username, password, newId, hash, s).response.status == 201
    requires again != "" && NormalizeKey(again) == NormalizeKey(email.value)
    ensures var s' := Register(email, username, password, newId, hash, s).store;
      Register(Some(again), username, password, otherId, hash, s') == Reply(400, Bare("Email already registered"), s')
  {
    RegisteredUserFindable(email, username, password, newId, hash, s);
  }

  /** The same email retyped in another letter case and with blanks around
      it is refused as already registered. */
  lemma {:induction false} NoDoubleRegistrationRecased(email: Option<string>, username: Option<string>,
                                                       password: Option<string>, p: string, retyped: string, q: string,
                                                       newId: Id, otherId: Id, hash: string -> string, s: Store)
    requires Wf(s) && newId != "" && otherId != ""
    requires Register(email, username, password, newId, hash, s).response.status == 201
    requires AllSpace(p) && AllSpace(q) && Lower(retyped) == Lower(email.value)
    ensures var s' := Register(email, username, password, newId, hash, s).store;
      Register(Some(p + retyped + q), username, password, otherId, hash, s') == Reply(400, Bare("Email already registered"), s')
  {
    RegisterSucceedsIff(email, username, password, newId, hash, s);
    NormalizeKeyIgnoresCaseAndBlanks(retyped, p, q);
    NormalizeKeyIgnoresCaseAndBlanks(email.value, [], []);
    assert |retyped| == |email.value| > 0;
    NoDoubleRegistration(email, username, password, p + retyped + q, newId, otherId, hash, s);
  }

  /** Adding a user with zero follow counters under an id no edge mentions
      keeps every counter equal to its edge count. */
  lemma {:induction false} NewUserKeepsCounters(s: Store, newId: Id, u: User)
    requires CountersAgree(s) && Unused(s, newId)
    requires u.followersCount == 0 && u.followingCount == 0
    ensures CountersAgree(s.(users := s.users[newId := u]))
  {
    var s' := s.(users := s.users[newId := u]);
    assert Followers(s.follows, newId) == {};
    assert Followees(s.follows, newId) == {};
    forall k | k in s'.users
      ensures s'.users[k].followersCount == |Followers(s'.follows, k)|
      ensures s'.users[k].followingCount == |Followees(s'.follows, k)|
    {
    }
  }

  /** A new user has no follow edges (its id is fresh), so its zero counters
      agree with them and every counter still agrees. */
  lemma {:induction false} RegisterKeepsCounters(email: Option<string>, username: Option<string>,
                                                 password: Option<string>, newId: Id,
                                                 hash: string -> string, s: Store)
    requires Wf(s) && newId != "" && CountersAgree(s) && Unused(s, newId)
    ensures CountersAgree(Register(email, username, password, newId, hash, s).store)
  {
    var r := Register(email, username, password, newId, hash, s);
    if r.response.status == 201 {
      var c := CreateUser(UserInput(email, username, password, None, None), hash);
      assert c.Some? && r.store == s.(users := s.users[newId := c.value]);
      NewUserKeepsCounters(s, newId, c.value);
    }
  }
}
