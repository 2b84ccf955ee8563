/**
 * The message routes: the two access rules as decisions over (identity, message), the detail
 * read, and the two writes (send, mark read) as steps on the store.
 */
module MessageRoutes {
  import opened Common
  import opened UserModel

  /** GET /:id: only the sender or the recipient may see a message. */
  predicate MayRead(identity: string, m: Message)
  {
    identity == m.fromUsername || identity == m.toUsername
  }

  /** POST /:id/read: only the recipient may mark a message read. */
  predicate MayMarkRead(identity: string, m: Message)
  {
    identity == m.toUsername
  }

  /** The position of the first message with the given id. */
  function FindMessage(msgs: seq<Message>, id: nat): (r: Option<nat>)
    ensures r.Some? ==> r.value < |msgs| && msgs[r.value].id == id
    ensures r.Some? ==> forall i :: 0 <= i < r.value ==> msgs[i].id != id
    ensures r.None? ==> forall i :: 0 <= i < |msgs| ==> msgs[i].id != id
    decreases |msgs|
  {
    if msgs == [] then None
    else if msgs[0].id == id then Some(0)
    else
      match FindMessage(msgs[1..], id)
      case None => None
      case Some(k) => Some(k + 1)
  }

  /** With distinct ids, looking up a message's id finds that very message. */
  lemma FindDistinct(msgs: seq<Message>, i: nat)
    requires IdsDistinct(msgs) && i < |msgs|
    ensures FindMessage(msgs, msgs[i].id) == Some(i)
  {
  }

  /**
   * The guard in front of GET /:id: no identity fails first, then a missing message, then the
   * read rule. On success it yields the message's position.
   */
  function ReadDecision(msgs: seq<Message>, identity: Option<string>, id: nat): (r: Result<nat>)
    ensures identity.None? ==> r == Err(Unauthenticated)
    ensures r.Ok? ==> identity.Some? && r.value < |msgs| && msgs[r.value].id == id
                      && MayRead(identity.value, msgs[r.value])
    ensures r.Ok? || r.error in {Unauthenticated, Forbidden, NoSuchMessage(id)}
    ensures identity.Some? && FindMessage(msgs, id).Some? ==>
              (r.Ok? <==> MayRead(identity.value, msgs[FindMessage(msgs, id).value]))
    ensures identity.Some? && FindMessage(msgs, id).None? ==> r == Err(NoSuchMessage(id))
  {
    if identity.None? then Err(Unauthenticated)
    else
      match FindMessage(msgs, id)
      case None => Err(NoSuchMessage(id))
      case Some(i) => if MayRead(identity.value, msgs[i]) then Ok(i) else Err(Forbidden)
  }

  /** The guard in front of POST /:id/read: the same order, with the recipient-only rule. */
  function MarkReadDecision(msgs: seq<Message>, identity: Option<string>, id: nat): (r: Result<nat>)
    ensures identity.None? ==> r == Err(Unauthenticated)
    ensures r.Ok? ==> identity.Some? && r.value < |msgs| && msgs[r.value].id == id
                      && MayMarkRead(identity.value, msgs[r.value])
    ensures r.Ok? || r.error in {Unauthenticated, Forbidden, NoSuchMessage(id)}
    ensures identity.Some? && FindMessage(msgs, id).Some? ==>
              (r.Ok? <==> MayMarkRead(identity.value, msgs[FindMessage(msgs, id).value]))
    ensures identity.Some? && FindMessage(msgs, id).None? ==> r == Err(NoSuchMessage(id))
  {
    if identity.None? then Err(Unauthenticated)
    else
      match FindMessage(msgs, id)
      case None => Err(NoSuchMessage(id))
      case Some(i) => if MayMarkRead(identity.value, msgs[i]) then Ok(i) else Err(Forbidden)
  }

  /**
   * For a message from a to b: a and b may read it, anyone else is refused; only b may mark it
   * read, so a (when a is not also b) is refused.
   */
  lemma AccessRuleTable(msgs: seq<Message>, i: nat, other: string)
    requires IdsDistinct(msgs) && i < |msgs|
    requires other != msgs[i].fromUsername && other != msgs[i].toUsername
    ensures ReadDecision(msgs, Some(msgs[i].fromUsername), msgs[i].id) == Ok(i)
    ensures ReadDecision(msgs, Some(msgs[i].toUsername), msgs[i].id) == Ok(i)
    ensures ReadDecision(msgs, Some(other), msgs[i].id) == Err(Forbidden)
    ensures MarkReadDecision(msgs, Some(msgs[i].toUsername), msgs[i].id) == Ok(i)
    ensures msgs[i].fromUsername != msgs[i].toUsername ==>
              MarkReadDecision(msgs, Some(msgs[i].fromUsername), msgs[i].id) == Err(Forbidden)
    ensures MarkReadDecision(msgs, Some(other), msgs[i].id) == Err(Forbidden)
  {
    FindDistinct(msgs, i);
  }

  /** GET /:id's answer: the message with both parties expanded to their public profiles. */
  datatype MessageDetail = MessageDetail(
    id: nat,
    body: string,
    sentAt: Time,
    readAt: Option<Time>,
    fromUser: Profile,
    toUser: Profile)

  /** GET /:id: the guard, then the message joined with both users. */
  function GetMessage(users: Users, msgs: seq<Message>, identity: Option<string>, id: nat): (r: Result<MessageDetail>)
    ensures ReadDecision(msgs, identity, id).Err? ==> r == Err(ReadDecision(msgs, identity, id).error)
    ensures r.Ok? ==> ReadDecision(msgs, identity, id).Ok?
    ensures r.Ok? ==>
              var m := msgs[ReadDecision(msgs, identity, id).value];
              && m.fromUsername in users && m.toUsername in users
              && r.value == MessageDetail(m.id, m.body, m.sentAt, m.readAt,
                                          ProfileOf(users, m.fromUsername), ProfileOf(users, m.toUsername))
    ensures PartiesRegistered(users, msgs) ==> (r.Ok? <==> ReadDecision(msgs, identity, id).Ok?)
  {
    match ReadDecision(msgs, identity, id)
    case Err(e) => Err(e)
    case Ok(i) =>
      var m := msgs[i];
      if m.fromUsername in users && m.toUsername in users then
        Ok(MessageDetail(m.id, m.body, m.sentAt, m.readAt,
                         ProfileOf(users, m.fromUsername), ProfileOf(users, m.toUsername)))
      else Err(NoSuchMessage(id))
  }

  /** The body of POST /: the recipient and the text; a sender field, if sent, is ignored. */
  datatype SendBody = SendBody(toUsername: string, body: string)

  /** POST /'s answer: {id, from_username, to_username, body, sent_at}. */
  datatype MessageSummary = MessageSummary(id: nat, fromUsername: string, toUsername: string, body: string, sentAt: Time)

  /** POST /:id/read's answer: {id, read_at}. */
  datatype ReadReceipt = ReadReceipt(id: nat, readAt: Time)

  /** The message after a mark-read: read_at is set once and never moved afterwards. */
  function ReadOnce(m: Message, now: Time): (r: Message)
    ensures r.readAt.Some?
    ensures m.readAt.Some? ==> r == m
    ensures m.readAt.None? ==> r.readAt == Some(now)
    ensures r.(readAt := m.readAt) == m
  {
    if m.readAt.Some? then m else m.(readAt := Some(now))
  }

  /** Marking read twice keeps the first time. */
  lemma ReadOnceIdempotent(m: Message, first: Time, second: Time)
    ensures ReadOnce(ReadOnce(m, first), second) == ReadOnce(m, first)
  {
  }

  /**
   * POST /: with a logged-in identity, insert a message whose sender is that identity. The
   * insert draws the next id before the store's foreign keys are checked, so an insert they
   * refuse (an unknown sender or recipient) still uses up an id.
   */
  method Send(db: Database, identity: Option<string>, req: SendBody, now: Time) returns (r: Result<MessageSummary>)
    requires db.Valid()
    modifies db
    ensures db.Valid() && db.users == old(db.users)
    ensures identity.None? ==>
              r == Err(Unauthenticated) && db.messages == old(db.messages) && db.nextId == old(db.nextId)
    ensures identity.Some? ==> db.nextId == old(db.nextId) + 1
    ensures identity.Some? && (identity.value !in db.users || req.toUsername !in db.users) ==>
              r == Err(ForeignKeyViolation) && db.messages == old(db.messages)
    ensures identity.Some? && identity.value in db.users && req.toUsername in db.users ==>
              var id := old(db.nextId);
              && db.messages == old(db.messages) + [Message(id, identity.value, req.toUsername, req.body, now, None)]
              && r == Ok(MessageSummary(id, identity.value, req.toUsername, req.body, now))
  {
    if identity.None? {
      return Err(Unauthenticated);
    }
    var sender := identity.value;
    var id := db.nextId;
    db.nextId := db.nextId + 1;
    if sender !in db.users || req.toUsername !in db.users {
      return Err(ForeignKeyViolation);
    }
    AppendKeepsWellFormed(db.users, db.messages, id, Message(id, sender, req.toUsername, req.body, now, None));
    db.messages := db.messages + [Message(id, sender, req.toUsername, req.body, now, None)];
    r := Ok(MessageSummary(id, sender, req.toUsername, req.body, now));
  }

  /** POST /:id/read: the recipient-only guard, then set read_at once. */
  method MarkRead(db: Database, identity: Option<string>, id: nat, now: Time) returns (r: Result<ReadReceipt>)
    requires db.Valid()
    modifies db
    ensures db.Valid() && db.users == old(db.users) && db.nextId == old(db.nextId)
    ensures MarkReadDecision(old(db.messages), identity, id).Err? ==>
              r == Err(MarkReadDecision(old(db.messages), identity, id).error) && db.messages == old(db.messages)
    ensures MarkReadDecision(old(db.messages), identity, id).Ok? ==>
              var i := MarkReadDecision(old(db.messages), identity, id).value;
              var marked := ReadOnce(old(db.messages)[i], now);
              && db.messages == old(db.messages)[i := marked]
              && r == Ok(ReadReceipt(id, marked.readAt.value))
  {
    var decision := MarkReadDecision(db.messages, identity, id);
    if decision.Err? {
      return Err(decision.error);
    }
    var i := decision.value;
    var marked := ReadOnce(db.messages[i], now);
    db.messages := db.messages[i := marked];
    r := Ok(ReadReceipt(id, marked.readAt.value));
  }

  /**
   * A sent message is visible to both parties and to no one else, is in the sender's outbox and
   * the recipient's inbox, and only the recipient may mark it read.
   */
  lemma SentMessageReachesBothParties(users: Users, msgs: seq<Message>, nextId: nat, sender: string, req: SendBody, now: Time, other: string)
    requires WellFormed(users, msgs, nextId) && sender in users && req.toUsername in users
    requires other != sender && other != req.toUsername
    ensures var m := Message(nextId, sender, req.toUsername, req.body, now, None);
            var after := msgs + [m];
            && WellFormed(users, after, nextId + 1)
            && GetMessage(users, after, Some(sender), m.id).Ok?
            && GetMessage(users, after, Some(req.toUsername), m.id).Ok?
            && GetMessage(users, after, Some(other), m.id) == Err(Forbidden)
            && MessagesFrom(users, after, sender) == MessagesFrom(users, msgs, sender) + [SentView(users, m)]
            && MessagesTo(users, after, req.toUsername) == MessagesTo(users, msgs, req.toUsername) + [ReceivedView(users, m)]
  {
    var m := Message(nextId, sender, req.toUsername, req.body, now, None);
    var after := msgs + [m];
    assert after[|msgs|] == m;
    AppendKeepsWellFormed(users, msgs, nextId, m);
    AccessRuleTable(after, |msgs|, other);
    MessagesFromAppend(users, msgs, m, sender);
    MessagesToAppend(users, msgs, m, req.toUsername);
  }
}
