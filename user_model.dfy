/**
 * The `User` model: the users table and the messages table held in memory, the two statements
 * that change the users table as methods of `Database`, and the read-only queries as functions
 * over the table contents.
 */
module UserModel {
  import opened Common
  import opened Collation
  import opened Bcrypt

  /** A row of the users table; the table is keyed by username, so the row omits it. */
  datatype UserRow = UserRow(
    password: Digest,
    firstName: string,
    lastName: string,
    phone: string,
    joinAt: Time,
    lastLoginAt: Time)

  /** The public part of a user: {username, first_name, last_name, phone}. */
  datatype Profile = Profile(username: string, firstName: string, lastName: string, phone: string)

  /** What `get` returns: the profile plus the two timestamps, never the password. */
  datatype UserDetail = UserDetail(
    username: string,
    firstName: string,
    lastName: string,
    phone: string,
    joinAt: Time,
    lastLoginAt: Time)

  /** A row of the messages table. */
  datatype Message = Message(
    id: nat,
    fromUsername: string,
    toUsername: string,
    body: string,
    sentAt: Time,
    readAt: Option<Time>)

  /** An element of `messagesFrom`: {id, to_user, body, sent_at, read_at}. */
  datatype SentMessage = SentMessage(id: nat, toUser: Profile, body: string, sentAt: Time, readAt: Option<Time>)

  /** An element of `messagesTo`: {id, from_user, body, sent_at, read_at}. */
  datatype ReceivedMessage = ReceivedMessage(id: nat, fromUser: Profile, body: string, sentAt: Time, readAt: Option<Time>)

  /** The request body handed to `register`; a field may be absent. */
  datatype RegisterBody = RegisterBody(
    username: Option<string>,
    password: Option<string>,
    firstName: Option<string>,
    lastName: Option<string>,
    phone: Option<string>)

  /** What `register` returns (RETURNING username, password, first_name, last_name, phone). */
  datatype NewUser = NewUser(username: string, password: Digest, firstName: string, lastName: string, phone: string)

  type Users = map<string, UserRow>

  predicate Complete(body: RegisterBody)
  {
    Present(body.username) && Present(body.password) && Present(body.firstName)
    && Present(body.lastName) && Present(body.phone)
  }

  /** Why `register` refuses a body, if it does: a missing field first, then a taken username. */
  function RegisterRejection(users: Users, body: RegisterBody): (r: Option<Error>)
    ensures r.None? <==> Complete(body) && body.username.value !in users
    ensures !Complete(body) ==> r == Some(MissingField(RegisterMissingMessage))
    ensures Complete(body) && body.username.value in users ==> r == Some(DuplicateUsername)
  {
    if !Complete(body) then Some(MissingField(RegisterMissingMessage))
    else if body.username.value in users then Some(DuplicateUsername)
    else None
  }

  /** The row `register` inserts: the password hashed, both timestamps the insert's time. */
  function RegisteredRow(body: RegisterBody, salt: Salt, now: Time): UserRow
    requires Complete(body)
  {
    UserRow(Hash(body.password.value, salt), body.firstName.value, body.lastName.value,
            body.phone.value, now, now)
  }

  /** The users table after `register` accepted a body. */
  function Registered(users: Users, body: RegisterBody, salt: Salt, now: Time): (r: Users)
    requires Complete(body)
    ensures r.Keys == users.Keys + {body.username.value}
    ensures forall v :: v in users && v != body.username.value ==> r[v] == users[v]
    ensures r[body.username.value].password == Hash(body.password.value, salt)
    ensures Compare(body.password.value, r[body.username.value].password)
    ensures r[body.username.value].firstName == body.firstName.value
    ensures r[body.username.value].lastName == body.lastName.value
    ensures r[body.username.value].phone == body.phone.value
    ensures r[body.username.value].joinAt == now == r[body.username.value].lastLoginAt
  {
    users[body.username.value := RegisteredRow(body, salt, now)]
  }

  /** The users table after `updateLoginTimestamp(username)`; an unknown name matches no row. */
  function Touched(users: Users, username: string, now: Time): (r: Users)
    ensures r.Keys == users.Keys
    ensures forall v :: v in users && v != username ==> r[v] == users[v]
    ensures username in users ==> r[username] == users[username].(lastLoginAt := now)
  {
    if username in users then users[username := users[username].(lastLoginAt := now)] else users
  }

  /** authenticate(username, password): does the password verify against the stored hash? */
  function Authenticate(users: Users, username: Option<string>, password: Option<string>): (r: Result<bool>)
    ensures !(Present(username) && Present(password)) ==> r == Err(MissingField(LoginMissingMessage))
    ensures Present(username) && Present(password) && username.value !in users ==> r == Err(NoUserRow)
    ensures r.Ok? <==> Present(username) && Present(password) && username.value in users
    ensures r.Ok? ==> (r.value <==> Compare(password.value, users[username.value].password))
  {
    if !(Present(username) && Present(password)) then Err(MissingField(LoginMissingMessage))
    else if username.value !in users then Err(NoUserRow)
    else Ok(Compare(password.value, users[username.value].password))
  }

  function ProfileOf(users: Users, username: string): Profile
    requires username in users
  {
    var row := users[username];
    Profile(username, row.firstName, row.lastName, row.phone)
  }

  /** The public profiles of the given keys, in the given order. */
  function Listing(users: Users, keys: seq<string>): seq<Profile>
    requires forall k :: k in keys ==> k in users
  {
    seq(|keys|, i requires 0 <= i < |keys| => ProfileOf(users, keys[i]))
  }

  /** all(): every user's public profile, ordered by username. */
  function All(users: Users): (r: seq<Profile>)
    ensures |r| == |users|
    ensures forall u :: u in users ==> ProfileOf(users, u) in r
    ensures forall p :: p in r ==> p.username in users && p == ProfileOf(users, p.username)
    ensures forall i, j :: 0 <= i < j < |r| ==> Less(r[i].username, r[j].username)
  {
    var keys := SortedKeys(users.Keys);
    ListingFacts(users, keys);
    Listing(users, keys)
  }

  /** The listing of some keys holds, position by position, the profile of each key. */
  lemma ListingFacts(users: Users, keys: seq<string>)
    requires forall k :: k in keys ==> k in users
    ensures |Listing(users, keys)| == |keys|
    ensures forall i :: 0 <= i < |keys| ==> Listing(users, keys)[i].username == keys[i]
    ensures forall u :: u in keys ==> ProfileOf(users, u) in Listing(users, keys)
    ensures forall p :: p in Listing(users, keys) ==> p.username in keys && p == ProfileOf(users, p.username)
  {
    var r := Listing(users, keys);
    forall u | u in keys
      ensures ProfileOf(users, u) in r
    {
      var i :| 0 <= i < |keys| && keys[i] == u;
      assert r[i] == ProfileOf(users, u);
    }
    forall p | p in r
      ensures p.username in keys && p == ProfileOf(users, p.username)
    {
      var i :| 0 <= i < |r| && r[i] == p;
      assert p == ProfileOf(users, keys[i]);
    }
  }

  /** get(username): the profile and timestamps of one user, or 404. */
  function Get(users: Users, username: string): (r: Result<UserDetail>)
    ensures r.Err? <==> username !in users
    ensures r.Err? ==> r.error == NoSuchUser(username)
    ensures r.Ok? ==>
              && r.value.username == username
              && Profile(username, r.value.firstName, r.value.lastName, r.value.phone) == ProfileOf(users, username)
              && r.value.joinAt == users[username].joinAt
              && r.value.lastLoginAt == users[username].lastLoginAt
  {
    if username !in users then Err(NoSuchUser(username))
    else
      var row := users[username];
      Ok(UserDetail(username, row.firstName, row.lastName, row.phone, row.joinAt, row.lastLoginAt))
  }

  function SentView(users: Users, m: Message): SentMessage
    requires m.toUsername in users
  {
    SentMessage(m.id, ProfileOf(users, m.toUsername), m.body, m.sentAt, m.readAt)
  }

  function ReceivedView(users: Users, m: Message): ReceivedMessage
    requires m.fromUsername in users
  {
    ReceivedMessage(m.id, ProfileOf(users, m.fromUsername), m.body, m.sentAt, m.readAt)
  }

  /**
   * messagesFrom(username): the messages it sent, each joined with its recipient's profile.
   * The inner join drops a message whose recipient has no row.
   */
  function MessagesFrom(users: Users, msgs: seq<Message>, username: string): (r: seq<SentMessage>)
    ensures |r| <= |msgs|
    ensures forall m :: m in msgs && m.fromUsername == username && m.toUsername in users ==> SentView(users, m) in r
    ensures forall v :: v in r ==> exists m :: m in msgs && m.fromUsername == username && m.toUsername in users && v == SentView(users, m)
    decreases |msgs|
  {
    if msgs == [] then [] else Outgoing(users, msgs[0], username) + MessagesFrom(users, msgs[1..], username)
  }

  /** The row one message contributes to the sender's outbox: none unless it matches and joins. */
  function Outgoing(users: Users, m: Message, username: string): seq<SentMessage>
  {
    if m.fromUsername == username && m.toUsername in users then [SentView(users, m)] else []
  }

  /** messagesTo(username): the mirror image, keyed on the recipient and joined with the sender. */
  function MessagesTo(users: Users, msgs: seq<Message>, username: string): (r: seq<ReceivedMessage>)
    ensures |r| <= |msgs|
    ensures forall m :: m in msgs && m.toUsername == username && m.fromUsername in users ==> ReceivedView(users, m) in r
    ensures forall v :: v in r ==> exists m :: m in msgs && m.toUsername == username && m.fromUsername in users && v == ReceivedView(users, m)
    decreases |msgs|
  {
    if msgs == [] then [] else Incoming(users, msgs[0], username) + MessagesTo(users, msgs[1..], username)
  }

  /** The row one message contributes to the recipient's inbox. */
  function Incoming(users: Users, m: Message, username: string): seq<ReceivedMessage>
  {
    if m.toUsername == username && m.fromUsername in users then [ReceivedView(users, m)] else []
  }

  /** Both parties of every message are registered users (the foreign keys). */
  predicate PartiesRegistered(users: Users, msgs: seq<Message>)
  {
    forall i :: 0 <= i < |msgs| ==> msgs[i].fromUsername in users && msgs[i].toUsername in users
  }

  /** No two messages share an id (the primary key). */
  predicate IdsDistinct(msgs: seq<Message>)
  {
    forall i, j :: 0 <= i < j < |msgs| ==> msgs[i].id != msgs[j].id
  }

  /**
   * The messages table's constraints. Ids come from a sequence whose next value is `nextId`:
   * every id already used lies below it, and ids may have gaps.
   */
  predicate WellFormed(users: Users, msgs: seq<Message>, nextId: nat)
  {
    && PartiesRegistered(users, msgs)
    && IdsDistinct(msgs)
    && forall i :: 0 <= i < |msgs| ==> msgs[i].id < nextId
  }

  // Properties relating the queries to the statements that change the tables.

  /** After register, authenticate accepts exactly the registered password. */
  lemma AuthenticateAfterRegister(users: Users, body: RegisterBody, salt: Salt, now: Time, attempt: string)
    requires Complete(body) && attempt != ""
    ensures Authenticate(Registered(users, body, salt, now), body.username, Some(attempt))
            == Ok(attempt == body.password.value)
  {
    CompareExact(attempt, body.password.value, salt);
  }

  /** After register, get returns the submitted profile with both timestamps at the insert time. */
  lemma GetAfterRegister(users: Users, body: RegisterBody, salt: Salt, now: Time)
    requires Complete(body)
    ensures Get(Registered(users, body, salt, now), body.username.value)
            == Ok(UserDetail(body.username.value, body.firstName.value, body.lastName.value,
                             body.phone.value, now, now))
  {
  }

  /** After register, the listing carries the submitted public profile. */
  lemma AllAfterRegister(users: Users, body: RegisterBody, salt: Salt, now: Time)
    requires Complete(body)
    ensures Profile(body.username.value, body.firstName.value, body.lastName.value, body.phone.value)
            in All(Registered(users, body, salt, now))
  {
    var after := Registered(users, body, salt, now);
    assert ProfileOf(after, body.username.value)
           == Profile(body.username.value, body.firstName.value, body.lastName.value, body.phone.value);
  }

  /** A second register of a taken username is refused, and the table held one row for it. */
  lemma RegisterTwiceIsRefused(users: Users, body: RegisterBody, again: RegisterBody, salt: Salt, now: Time)
    requires RegisterRejection(users, body).None?
    requires Complete(again) && again.username == body.username
    ensures RegisterRejection(Registered(users, body, salt, now), again) == Some(DuplicateUsername)
    ensures |Registered(users, body, salt, now)| == |users| + 1
  {
    var u := body.username.value;
    assert Registered(users, body, salt, now).Keys == users.Keys + {u};
    assert u !in users.Keys;
  }

  /** Touching a login time leaves the public listing as it was. */
  lemma TouchKeepsListing(users: Users, username: string, now: Time)
    ensures All(Touched(users, username, now)) == All(users)
  {
    var touched := Touched(users, username, now);
    var keys := SortedKeys(users.Keys);
    assert touched.Keys == users.Keys;
    ListingAgrees(touched, users, keys);
  }

  lemma ListingAgrees(a: Users, b: Users, keys: seq<string>)
    requires forall k :: k in keys ==> k in a && k in b && ProfileOf(a, k) == ProfileOf(b, k)
    ensures Listing(a, keys) == Listing(b, keys)
  {
  }

  /** Touching a login time changes no password check. */
  lemma TouchKeepsPasswords(users: Users, username: string, now: Time, u: Option<string>, p: Option<string>)
    ensures Authenticate(Touched(users, username, now), u, p) == Authenticate(users, u, p)
  {
  }

  /** all() and get() agree on every listed user, and get() adds only the two timestamps. */
  lemma AllAgreesWithGet(users: Users)
    ensures forall p :: p in All(users) ==>
              && Get(users, p.username).Ok?
              && var d := Get(users, p.username).value;
                 p == Profile(d.username, d.firstName, d.lastName, d.phone)
  {
  }

  /** Appending one message extends the sender's outbox by at most that message, in order. */
  lemma {:induction false} MessagesFromAppend(users: Users, msgs: seq<Message>, m: Message, username: string)
    ensures MessagesFrom(users, msgs + [m], username) == MessagesFrom(users, msgs, username) + Outgoing(users, m, username)
    decreases |msgs|
  {
    if msgs != [] {
      assert (msgs + [m])[0] == msgs[0];
      assert (msgs + [m])[1..] == msgs[1..] + [m];
      MessagesFromAppend(users, msgs[1..], m, username);
    }
  }

  /** Appending one message extends the recipient's inbox by at most that message, in order. */
  lemma {:induction false} MessagesToAppend(users: Users, msgs: seq<Message>, m: Message, username: string)
    ensures MessagesTo(users, msgs + [m], username) == MessagesTo(users, msgs, username) + Incoming(users, m, username)
    decreases |msgs|
  {
    if msgs != [] {
      assert (msgs + [m])[0] == msgs[0];
      assert (msgs + [m])[1..] == msgs[1..] + [m];
      MessagesToAppend(users, msgs[1..], m, username);
    }
  }

  /** In a well-formed store every message is in its sender's outbox and its recipient's inbox. */
  lemma SentIsReceived(users: Users, msgs: seq<Message>, i: nat)
    requires PartiesRegistered(users, msgs) && i < |msgs|
    ensures SentView(users, msgs[i]) in MessagesFrom(users, msgs, msgs[i].fromUsername)
    ensures ReceivedView(users, msgs[i]) in MessagesTo(users, msgs, msgs[i].toUsername)
  {
    assert msgs[i] in msgs;
  }

  /** Inserting a message with the sequence's next value, between registered users, keeps the constraints. */
  lemma AppendKeepsWellFormed(users: Users, msgs: seq<Message>, nextId: nat, m: Message)
    requires WellFormed(users, msgs, nextId)
    requires m.id == nextId && m.fromUsername in users && m.toUsername in users
    ensures WellFormed(users, msgs + [m], nextId + 1)
  {
    var after := msgs + [m];
    forall i, j | 0 <= i < j < |after|
      ensures after[i].id != after[j].id
    {
      assert after[i] == msgs[i];
      if j < |msgs| {
        assert after[j] == msgs[j];
      }
    }
  }

  class Database {
    var users: Users
    var messages: seq<Message>
    /** The next value of the messages id sequence; a drawn value is never handed back. */
    var nextId: nat

    ghost predicate Valid()
      reads this
    {
      WellFormed(users, messages, nextId)
    }

    constructor ()
      ensures Valid() && users == map[] && messages == [] && nextId == 1
    {
      users := map[];
      messages := [];
      nextId := 1;
    }

    /** User.register: validate, hash the password, insert the row. */
    method Register(body: RegisterBody, salt: Salt, now: Time) returns (r: Result<NewUser>)
      requires Valid()
      modifies this
      ensures Valid() && messages == old(messages) && nextId == old(nextId)
      ensures RegisterRejection(old(users), body).Some? ==>
                r == Err(RegisterRejection(old(users), body).value) && users == old(users)
      ensures RegisterRejection(old(users), body).None? ==>
                && users == Registered(old(users), body, salt, now)
                && r == Ok(NewUser(body.username.value, Hash(body.password.value, salt),
                                   body.firstName.value, body.lastName.value, body.phone.value))
    {
      var rejection := RegisterRejection(users, body);
      if rejection.Some? {
        return Err(rejection.value);
      }
      var username := body.username.value;
      var hashed := Hash(body.password.value, salt);
      users := users[username := UserRow(hashed, body.firstName.value, body.lastName.value,
                                         body.phone.value, now, now)];
      r := Ok(NewUser(username, hashed, body.firstName.value, body.lastName.value, body.phone.value));
    }

    /** User.updateLoginTimestamp: set last_login_at of one row, if there is such a row. */
    method UpdateLoginTimestamp(username: string, now: Time)
      requires Valid()
      modifies this
      ensures Valid() && messages == old(messages) && nextId == old(nextId)
      ensures users == Touched(old(users), username, now)
    {
      if username in users {
        users := users[username := users[username].(lastLoginAt := now)];
      }
    }
  }
}
