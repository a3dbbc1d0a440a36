/** The `/users` routes: registration, which refuses an e-mail address
    already in use, and login, which issues a new session token. */
module UserRoutes {
  import opened Records
  import opened Store

  /** The body of POST /users once its types have been checked. */
  datatype NewUser = NewUser(name: string, password: string, email: string)

  /** The body of POST /users/sessions once its types have been checked. */
  datatype Credentials = Credentials(email: string, password: string)

  /** The value checks of the registration schema: a non-empty name, a
      password of at least 6 UTF-16 code units, an e-mail address. */
  predicate ValidNewUser(body: NewUser) {
    body.name != "" && Utf16Length(body.password) >= 6 && body.email != "" && IsEmail(body.email)
  }

  /** The password's length is counted in UTF-16 code units: three
      characters beyond U+FFFF make six and pass, three ASCII ones do not. */
  lemma PasswordLengthInCodeUnits()
    ensures ValidNewUser(NewUser("Ana", "\U{1F600}\U{1F600}\U{1F600}", "a@b.io"))
    ensures !ValidNewUser(NewUser("Ana", "abc", "a@b.io"))
  {
    assert "a@b.io"[1] == '@';
  }

  /** The value checks of the login schema. */
  predicate ValidCredentials(body: Credentials) {
    body.email != "" && IsEmail(body.email) && body.password != ""
  }

  /** A token no user holds, as a newly drawn random token is. */
  ghost predicate UnusedToken(db: Database, token: string)
    reads db
  {
    forall id :: id in db.users ==> db.users[id].sessionId != token
  }

  /** GET /users: every row of the users table. */
  method ListUsers(db: Database) returns (rows: seq<User>)
    ensures multiset(rows) == multiset(db.users.Values)
  {
    rows := Scan(db.users.Values);
  }

  /** POST /users: a new user under freshId whose session is freshToken, the
      value the response sets as the `sessionId` cookie. */
  method Register(db: Database, body: NewUser, freshId: Id, freshToken: string) returns (r: Result<string>)
    requires db.Valid()
    requires freshId !in db.users && UnusedToken(db, freshToken)
    modifies db
    ensures db.Valid() && EmailsUnique(db.users)
    ensures db.meals == old(db.meals)
    ensures !ValidNewUser(body) ==> r == Fail(Invalid) && db.users == old(db.users)
    ensures ValidNewUser(body) && old(db.EmailUser(body.email)).Some? ==>
      r == Fail(Http(CONFLICT)) && db.users == old(db.users)
    ensures ValidNewUser(body) && old(db.EmailUser(body.email)).None? ==>
      r == Ok(freshToken) &&
      db.users == old(db.users)[freshId := User(freshId, freshToken, body.name, body.password, body.email)]
    ensures r.Ok? ==> db.SessionUser(r.value) == Some(db.users[freshId])
  {
    if !ValidNewUser(body) {
      return Fail(Invalid);
    }
    var existing := db.EmailUser(body.email);
    if existing.Some? {
      return Fail(Http(CONFLICT));
    }
    db.users := db.users[freshId := User(freshId, freshToken, body.name, body.password, body.email)];
    r := Ok(freshToken);
  }

  /** POST /users/sessions: on a matching password the user's session token
      is replaced by freshToken, the value the response sets as the cookie;
      the token it replaces no longer identifies anyone. */
  method Login(db: Database, body: Credentials, freshToken: string) returns (r: Result<string>)
    requires db.Valid()
    requires UnusedToken(db, freshToken)
    modifies db
    ensures db.Valid()
    ensures db.meals == old(db.meals)
    ensures !ValidCredentials(body) ==> r == Fail(Invalid) && db.users == old(db.users)
    ensures ValidCredentials(body) && old(db.EmailUser(body.email)).None? ==>
      r == Fail(Http(NOT_FOUND)) && db.users == old(db.users)
    ensures ValidCredentials(body) && old(db.EmailUser(body.email)).Some? ==>
      var user := old(db.EmailUser(body.email)).value;
      if user.password != body.password then
        r == Fail(Http(UNAUTHORIZED)) && db.users == old(db.users)
      else
        r == Ok(freshToken) &&
        db.users == old(db.users)[user.id := user.(sessionId := freshToken)] &&
        db.SessionUser(freshToken) == Some(user.(sessionId := freshToken)) &&
        db.SessionUser(user.sessionId).None?
  {
    if !ValidCredentials(body) {
      return Fail(Invalid);
    }
    var user := db.EmailUser(body.email);
    if user.None? {
      return Fail(Http(NOT_FOUND));
    }
    if user.value.password != body.password {
      return Fail(Http(UNAUTHORIZED));
    }
    db.users := db.users[user.value.id := user.value.(sessionId := freshToken)];
    assert db.users[user.value.id].sessionId == freshToken;
    r := Ok(freshToken);
  }
}
