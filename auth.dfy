/** The credential store and the login handler: registration with a
    uniqueness check on the username, and login by username lookup followed by
    a password check against the stored digest. */
module Auth {
  import opened Models
  import opened Http

  /** The random salt the hasher draws for each new digest. */
  type Salt = nat

  /** The password hasher as a pair of capabilities: `hash` turns a salt and a
      password into the digest string that is stored, `check` tells whether a
      stored digest was made from a given password. */
  datatype Hasher = Hasher(hash: (Salt, string) -> string, check: (string, string) -> bool)

  /** The one thing the handlers rely on: a digest checks against the password
      it was made from, whatever the salt. */
  ghost predicate Sound(h: Hasher)
  {
    forall salt, password :: h.check(h.hash(salt, password), password)
  }

  /** The JSON body of a register request; a key may be absent. */
  datatype Credentials = Credentials(username: Option<string>, password: Option<string>)

  /** Some user already has this username. */
  predicate Taken(users: map<int, User>, username: string)
  {
    exists id :: id in users && users[id].username == username
  }

  /** `User.query.filter_by(username=username).first()`: the id of a user
      with that username, if there is one. */
  ghost function FindUser(users: map<int, User>, username: string): (r: Option<int>)
    ensures r.Some? <==> Taken(users, username)
    ensures r.Some? ==> r.value in users && users[r.value].username == username
  {
    if Taken(users, username) then
      var id :| id in users && users[id].username == username; Some(id)
    else
      None
  }

  /** With unique usernames the lookup can only find the one user that has it. */
  lemma FindUserUnique(users: map<int, User>, username: string, id: int)
    requires UniqueUsernames(users)
    requires id in users && users[id].username == username
    ensures FindUser(users, username) == Some(id)
  {
  }

  /** The user table after a register request, the next user id, and the response. */
  datatype Registration = Registration(resp: Response, users: map<int, User>, nextId: int)

  const UserExists := Reply(400, Message("User already exists"))
  const UserCreated := Reply(201, Message("User registered successfully"))
  const InvalidCredentials := Reply(401, Message("Invalid credentials"))

  /** The password hasher (Flask-Bcrypt) refuses to hash an empty password. */
  predicate Hashable(password: string)
  {
    password != ""
  }

  /** What a register request does to the user table whose next id is `nextId`. */
  function RegisterStep(users: map<int, User>, nextId: int, h: Hasher, salt: Salt, req: Credentials): (r: Registration)
    // a missing key raises before the table is read
    ensures req.username.None? || req.password.None? ==> r.resp.Crash? && r.users == users && r.nextId == nextId
    // a complete request is refused with 400 exactly when the username is taken, and then nothing changes
    ensures req.username.Some? && req.password.Some? ==>
              (r.resp == UserExists <==> Taken(users, req.username.value))
    ensures r.resp == UserExists ==> r.users == users && r.nextId == nextId
    // with a free username, an empty password raises in the hasher and nothing changes
    ensures req.username.Some? && req.password.Some? && !Taken(users, req.username.value) && !Hashable(req.password.value) ==>
              r.resp == Crash(EmptyPassword) && r.users == users && r.nextId == nextId
    // a complete request with a free username and a non-empty password is accepted with 201
    ensures req.username.Some? && req.password.Some? && !Taken(users, req.username.value) && Hashable(req.password.value) ==>
              r.resp == UserCreated
    // otherwise exactly one user is added under the next id, holding the digest and not the password
    ensures r.resp == UserCreated <==> r.users != users || r.nextId != nextId
    ensures r.resp == UserCreated ==>
              && req.username.Some? && req.password.Some? && !Taken(users, req.username.value)
              && Hashable(req.password.value)
              && r.users == users[nextId := User(req.username.value, h.hash(salt, req.password.value))]
              && r.nextId == nextId + 1
    // the table invariants survive every register request
    ensures UniqueUsernames(users) ==> UniqueUsernames(r.users)
    ensures 1 <= nextId && IdsBelow(users, nextId) ==> 1 <= r.nextId && IdsBelow(r.users, r.nextId)
  {
    if req.username.None? then
      Registration(Crash(MissingKey("username")), users, nextId)
    else if req.password.None? then
      Registration(Crash(MissingKey("password")), users, nextId)
    else if Taken(users, req.username.value) then
      Registration(UserExists, users, nextId)
    else if !Hashable(req.password.value) then
      Registration(Crash(EmptyPassword), users, nextId)
    else
      var added := users[nextId := User(req.username.value, h.hash(salt, req.password.value))];
      Registration(UserCreated, added, nextId + 1)
  }

  /** The POST /register handler. */
  method Register(db: Db, h: Hasher, salt: Salt, req: Credentials) returns (resp: Response)
    requires db.Valid()
    modifies db
    ensures db.Valid()
    ensures var r := RegisterStep(old(db.users), old(db.nextUserId), h, salt, req);
            resp == r.resp && db.users == r.users && db.nextUserId == r.nextId
    ensures db.tasks == old(db.tasks) && db.nextTaskId == old(db.nextTaskId)
  {
    if req.username.None? {
      return Crash(MissingKey("username"));
    }
    if req.password.None? {
      return Crash(MissingKey("password"));
    }
    var username, password := req.username.value, req.password.value;
    if Taken(db.users, username) {
      return UserExists;
    }
    if !Hashable(password) {
      return Crash(EmptyPassword);
    }
    var hashed := h.hash(salt, password);
    var id := db.nextUserId;
    db.users := db.users[id := User(username, hashed)];
    db.nextUserId := id + 1;
    resp := UserCreated;
  }

  /** The POST /login handler: a function of the user table, so it changes nothing. */
  ghost function Login(users: map<int, User>, h: Hasher, username: string, password: string): (r: Response)
    // the only answers are a token and the one generic refusal
    ensures r == InvalidCredentials || (r.Reply? && r.status == 200 && r.body.AccessToken?)
    // a token is only issued for a user with that username whose stored digest checks
    ensures r != InvalidCredentials ==>
              var id := r.body.token.identity;
              id in users && users[id].username == username && h.check(users[id].password, password)
  {
    match FindUser(users, username)
    case Some(id) =>
      if h.check(users[id].password, password) then Reply(200, AccessToken(Token(id))) else InvalidCredentials
    case None => InvalidCredentials
  }

  /** `id` is a user with this username whose stored digest checks against the password. */
  ghost predicate Authentic(users: map<int, User>, h: Hasher, username: string, password: string, id: int)
  {
    id in users && users[id].username == username && h.check(users[id].password, password)
  }

  /** Login succeeds if and only if the user exists and the password checks,
      and the token then carries that user's id. */
  lemma LoginSucceedsIff(users: map<int, User>, h: Hasher, username: string, password: string)
    requires UniqueUsernames(users)
    ensures Login(users, h, username, password) != InvalidCredentials <==>
              exists id :: Authentic(users, h, username, password, id)
    ensures forall id :: Authentic(users, h, username, password, id) ==>
              Login(users, h, username, password) == Reply(200, AccessToken(Token(id)))
  {
    forall id | Authentic(users, h, username, password, id)
      ensures Login(users, h, username, password) == Reply(200, AccessToken(Token(id)))
    {
      FindUserUnique(users, username, id);
    }
  }

  /** An unknown username and a known username with a wrong password get the
      same answer, so a caller cannot tell which part was wrong. */
  lemma LoginFailuresIdentical(users: map<int, User>, h: Hasher, unknown: string, anyPassword: string,
                               id: int, wrongPassword: string)
    requires UniqueUsernames(users)
    requires !Taken(users, unknown)
    requires id in users && !h.check(users[id].password, wrongPassword)
    ensures Login(users, h, unknown, anyPassword) == InvalidCredentials
    ensures Login(users, h, users[id].username, wrongPassword) == Login(users, h, unknown, anyPassword)
  {
    FindUserUnique(users, users[id].username, id);
  }

  /** Registering a fresh username with a non-empty password and then logging
      in with the same credentials yields a token for the new user. */
  lemma RegisterThenLogin(users: map<int, User>, nextId: int, h: Hasher, salt: Salt, username: string, password: string)
    requires Sound(h)
    requires UniqueUsernames(users)
    requires !Taken(users, username) && Hashable(password)
    ensures var r := RegisterStep(users, nextId, h, salt, Credentials(Some(username), Some(password)));
            r.resp == UserCreated && Login(r.users, h, username, password) == Reply(200, AccessToken(Token(nextId)))
  {
    var r := RegisterStep(users, nextId, h, salt, Credentials(Some(username), Some(password)));
    assert r.users[nextId] == User(username, h.hash(salt, password));
    FindUserUnique(r.users, username, nextId);
  }

  /** The user table together with its next id. */
  datatype UserTable = UserTable(users: map<int, User>, nextId: int)

  /** The user table and next id after a sequence of register requests, the
      i-th drawing the i-th salt. */
  function RegisterAll(users: map<int, User>, nextId: int, h: Hasher, salts: seq<Salt>, reqs: seq<Credentials>): (r: UserTable)
    requires |salts| == |reqs|
    decreases |reqs|
  {
    if reqs == [] then UserTable(users, nextId)
    else
      var step := RegisterStep(users, nextId, h, salts[0], reqs[0]);
      RegisterAll(step.users, step.nextId, h, salts[1..], reqs[1..])
  }

  /** Usernames stay unique, and ids stay below the next id, after any
      sequence of register requests. */
  lemma {:induction false} RegisterAllKeepsUsernamesUnique(users: map<int, User>, nextId: int, h: Hasher,
                                                          salts: seq<Salt>, reqs: seq<Credentials>)
    requires |salts| == |reqs|
    requires UniqueUsernames(users) && 1 <= nextId && IdsBelow(users, nextId)
    ensures var r := RegisterAll(users, nextId, h, salts, reqs);
            UniqueUsernames(r.users) && 1 <= r.nextId && IdsBelow(r.users, r.nextId)
    decreases |reqs|
  {
    if reqs != [] {
      var step := RegisterStep(users, nextId, h, salts[0], reqs[0]);
      RegisterAllKeepsUsernamesUnique(step.users, step.nextId, h, salts[1..], reqs[1..]);
    }
  }
}
