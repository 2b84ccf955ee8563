/** Clients of the routes that rely on their contracts alone: register, log in, message. */
module Scenarios {
  import opened Common
  import opened Bcrypt
  import opened UserModel
  import opened AuthRoutes
  import opened MessageRoutes

  method RegisterAliceAndBob() returns (db: Database)
    ensures db.Valid() && db.users.Keys == {"alice", "bob"} && db.messages == [] && db.nextId == 1
    ensures Compare("s3cret", db.users["alice"].password)
  {
    db := new Database();
    var alice := RegisterBody(Some("alice"), Some("s3cret"), Some("Alice"), Some("Liddell"), Some("555-0100"));
    var bob := RegisterBody(Some("bob"), Some("hunter2"), Some("Bob"), Some("Builder"), Some("555-0101"));

    var t1 := Register(db, alice, 11, 1, 2);
    assert t1 == Ok(Token("alice"));
    var twice := Register(db, alice, 12, 3, 4);
    assert twice == Err(DuplicateUsername);
    var noPhone := Register(db, alice.(username := Some("carol"), phone := None), 13, 3, 4);
    assert noPhone == Err(MissingField(RegisterMissingMessage));
    var t2 := Register(db, bob, 14, 5, 6);
    assert t2 == Ok(Token("bob"));
  }

  method AliceLogsIn(db: Database)
    requires db.Valid() && "alice" in db.users && "carol" !in db.users
    requires Compare("s3cret", db.users["alice"].password)
    modifies db
  {
    var good := Login(db, LoginBody(Some("alice"), Some("s3cret")), 7);
    assert good == Ok(Token("alice"));
    assert db.users["alice"].lastLoginAt == 7;
    var wrong := Login(db, LoginBody(Some("alice"), Some("wrong")), 8);
    var unknown := Login(db, LoginBody(Some("carol"), Some("s3cret")), 8);
    assert wrong == unknown == Err(InvalidCredentials);
    assert db.users["alice"].lastLoginAt == 7;
  }

  method AliceWritesToBob(db: Database)
    requires db.Valid() && "alice" in db.users && "bob" in db.users && "zed" !in db.users
    requires db.messages == [] && db.nextId == 1
    modifies db
  {
    var anonymous := Send(db, None, SendBody("bob", "hi"), 9);
    assert anonymous == Err(Unauthenticated) && db.messages == [] && db.nextId == 1;
    var refused := Send(db, Some("alice"), SendBody("zed", "hi"), 9);
    assert refused == Err(ForeignKeyViolation) && db.messages == [];
    var sent := Send(db, Some("alice"), SendBody("bob", "hi"), 10);
    assert sent == Ok(MessageSummary(2, "alice", "bob", "hi", 10));
    assert db.messages[0].readAt == None;

    AccessRuleTable(db.messages, 0, "carol");
    assert GetMessage(db.users, db.messages, Some("bob"), 2).Ok?;
    assert GetMessage(db.users, db.messages, Some("carol"), 2) == Err(Forbidden);

    var bySender := MarkRead(db, Some("alice"), 2, 11);
    assert bySender == Err(Forbidden);
    var first := MarkRead(db, Some("bob"), 2, 12);
    assert first == Ok(ReadReceipt(2, 12));
    var again := MarkRead(db, Some("bob"), 2, 13);
    assert again == Ok(ReadReceipt(2, 12));
  }
}
