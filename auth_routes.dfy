/**
 * POST /login and POST /register: the authentication flow as steps on the store, with a token
 * whose only claim is the username. Signing with the secret key is not modelled.
 */
module AuthRoutes {
  import opened Common
  import opened Bcrypt
  import opened UserModel

  /** jwt.sign({ username }, SECRET_KEY), without the signature. */
  datatype Token = Token(username: string)

  /** The body of POST /login. */
  datatype LoginBody = LoginBody(username: Option<string>, password: Option<string>)

  /**
   * What POST /login answers for a body against a users table: a token for the username when the
   * password verifies, otherwise one uniform failure, so an unknown username and a wrong password
   * cannot be told apart.
   */
  function LoginOutcome(users: Users, body: LoginBody): (r: Result<Token>)
    ensures r.Ok? <==> Authenticate(users, body.username, body.password) == Ok(true)
    ensures r.Ok? ==> r.value == Token(body.username.value)
    ensures r.Err? ==> r.error == if Present(body.username) && Present(body.password)
                                  then InvalidCredentials
                                  else MissingField(LoginMissingMessage)
  {
    match Authenticate(users, body.username, body.password)
    case Ok(true) => Ok(Token(body.username.value))
    case Ok(false) => Err(InvalidCredentials)
    case Err(NoUserRow) => Err(InvalidCredentials)
    case Err(e) => Err(e)
  }

  /** POST /login: authenticate, and only on success touch last_login_at and issue the token. */
  method Login(db: Database, body: LoginBody, now: Time) returns (r: Result<Token>)
    requires db.Valid()
    modifies db
    ensures db.Valid() && db.messages == old(db.messages) && db.nextId == old(db.nextId)
    ensures r == LoginOutcome(old(db.users), body)
    ensures r.Ok? ==> db.users == Touched(old(db.users), body.username.value, now)
    ensures r.Err? ==> db.users == old(db.users)
  {
    var verdict := Authenticate(db.users, body.username, body.password);
    if verdict == Ok(true) {
      db.UpdateLoginTimestamp(body.username.value, now);
      r := Ok(Token(body.username.value));
    } else if verdict.Err? && verdict.error != NoUserRow {
      r := Err(verdict.error);
    } else {
      r := Err(InvalidCredentials);
    }
  }

  /**
   * POST /register: register the user, issue the token, touch last_login_at. A refused body
   * leaves the store as it was and issues no token.
   */
  method Register(db: Database, body: RegisterBody, salt: Salt, insertedAt: Time, touchedAt: Time)
    returns (r: Result<Token>)
    requires db.Valid()
    modifies db
    ensures db.Valid() && db.messages == old(db.messages) && db.nextId == old(db.nextId)
    ensures RegisterRejection(old(db.users), body).Some? ==>
              r == Err(RegisterRejection(old(db.users), body).value) && db.users == old(db.users)
    ensures RegisterRejection(old(db.users), body).None? ==>
              && r == Ok(Token(body.username.value))
              && db.users == Touched(Registered(old(db.users), body, salt, insertedAt),
                                     body.username.value, touchedAt)
  {
    var created := db.Register(body, salt, insertedAt);
    if created.Err? {
      return Err(created.error);
    }
    var username := created.value.username;
    var token := Token(username);
    db.UpdateLoginTimestamp(username, touchedAt);
    r := Ok(token);
  }

  /** Every failed login on a complete body is the same failure, whether or not the user exists. */
  lemma LoginFailuresAreUniform(users: Users, username: string, password: string)
    requires username != "" && password != ""
    ensures username !in users ==> LoginOutcome(users, LoginBody(Some(username), Some(password))) == Err(InvalidCredentials)
    ensures username in users && !Compare(password, users[username].password) ==>
              LoginOutcome(users, LoginBody(Some(username), Some(password))) == Err(InvalidCredentials)
  {
  }

  /** A registered user logs in with the registered password, and with no other. */
  lemma RegisteredUserLogsIn(users: Users, body: RegisterBody, salt: Salt, insertedAt: Time, touchedAt: Time, attempt: string)
    requires RegisterRejection(users, body).None? && attempt != ""
    ensures var after := Touched(Registered(users, body, salt, insertedAt), body.username.value, touchedAt);
            LoginOutcome(after, LoginBody(body.username, Some(attempt)))
            == if attempt == body.password.value then Ok(Token(body.username.value)) else Err(InvalidCredentials)
  {
    var registered := Registered(users, body, salt, insertedAt);
    AuthenticateAfterRegister(users, body, salt, insertedAt, attempt);
    TouchKeepsPasswords(registered, body.username.value, touchedAt, body.username, Some(attempt));
  }

  // The handlers as the source writes them (see README, Findings).

  /** The users table a handler leaves behind and its answer. */
  datatype Handled = Handled(users: Users, response: Result<Token>)

  /**
   * POST /login as written: `User.authenticate` is not awaited, so the `if` tests a pending
   * Promise, which is always truthy; the un-awaited update then runs for whatever username was
   * sent, and `jwt.sign` throws because `jwt` is never bound.
   */
  function LoginAsWritten(users: Users, body: LoginBody, now: Time): (h: Handled)
    ensures h.response == Err(ReferenceError("jwt"))
    ensures body.username.Some? ==> h.users == Touched(users, body.username.value, now)
  {
    // The branch is taken whatever authenticate would resolve to; an absent username
    // (`WHERE username = NULL`) matches no row.
    var touched := if body.username.Some? then Touched(users, body.username.value, now) else users;
    Handled(touched, Err(ReferenceError("jwt")))
  }

  /** As written, a wrong password still moves the user's last login; the corrected flow does not. */
  lemma LoginAsWrittenTouchesOnWrongPassword(users: Users, username: string, password: string, now: Time)
    requires username in users && password != "" && username != ""
    requires !Compare(password, users[username].password) && users[username].lastLoginAt != now
    ensures LoginAsWritten(users, LoginBody(Some(username), Some(password)), now).users[username].lastLoginAt == now
    ensures LoginOutcome(users, LoginBody(Some(username), Some(password))) == Err(InvalidCredentials)
  {
  }

  /** The instance named in README: alice registered with "s3cret" logs in with "wrong". */
  lemma AliceWrongPasswordAsWritten()
    ensures var users := map["alice" := UserRow(Hash("s3cret", 7), "Alice", "Liddell", "555-0100", 1, 1)];
            var body := LoginBody(Some("alice"), Some("wrong"));
            && LoginAsWritten(users, body, 2).users["alice"].lastLoginAt == 2
            && LoginOutcome(users, body) == Err(InvalidCredentials)
  {
    var users := map["alice" := UserRow(Hash("s3cret", 7), "Alice", "Liddell", "555-0100", 1, 1)];
    LoginAsWrittenTouchesOnWrongPassword(users, "alice", "wrong", 2);
  }

  /**
   * POST /register as written: the awaited register inserts the row, then `jwt.sign` throws
   * because `jwt` is never bound, so the login time is never touched and no token is returned.
   */
  function RegisterAsWritten(users: Users, body: RegisterBody, salt: Salt, now: Time): (h: Handled)
    ensures h.response.Err?
    ensures RegisterRejection(users, body).None? ==>
              h.users == Registered(users, body, salt, now) && h.response == Err(ReferenceError("jwt"))
  {
    match RegisterRejection(users, body)
    case Some(e) => Handled(users, Err(e))
    case None => Handled(Registered(users, body, salt, now), Err(ReferenceError("jwt")))
  }

  /** As written, an accepted registration stores the user but answers with an error. */
  lemma RegisterAsWrittenStoresUserWithoutToken(users: Users, body: RegisterBody, salt: Salt, now: Time)
    requires RegisterRejection(users, body).None?
    ensures body.username.value in RegisterAsWritten(users, body, salt, now).users
    ensures RegisterAsWritten(users, body, salt, now).response.Err?
  {
  }
}
