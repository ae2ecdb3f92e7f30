/** The message resolvers: the `messages` query, the `sendMessage` mutation and the
    filter of the `messageSent` subscription. */
module MessageResolvers {
  import opened Types
  import opened Membership
  import opened Db
  import ConversationResolvers

  // ---------------------------------------------------------------------------
  // Query: messages

  /** Ordered by `createdAt`, newest first. */
  predicate NewestFirst(ms: seq<Message>)
  {
    forall i, j :: 0 <= i < j < |ms| ==> ms[i].createdAt >= ms[j].createdAt
  }

  /** `m` put into a newest-first sequence at its place. */
  function InsertByDate(m: Message, ms: seq<Message>): (r: seq<Message>)
    requires NewestFirst(ms)
    ensures NewestFirst(r)
    ensures multiset(r) == multiset(ms) + multiset{m}
    ensures |r| == |ms| + 1 && (r[0] == m || (ms != [] && r[0] == ms[0]))
  {
    if ms == [] || ms[0].createdAt <= m.createdAt then [m] + ms
    else
      var rest := InsertByDate(m, ms[1..]);
      assert ms == [ms[0]] + ms[1..];
      assert rest[0].createdAt <= ms[0].createdAt;
      [ms[0]] + rest
  }

  /** `orderBy: {createdAt: "desc"}`: the same messages, newest first. */
  function SortNewestFirst(ms: seq<Message>): (r: seq<Message>)
    ensures NewestFirst(r)
    ensures multiset(r) == multiset(ms)
  {
    if ms == [] then []
    else
      assert ms == [ms[0]] + ms[1..];
      InsertByDate(ms[0], SortNewestFirst(ms[1..]))
  }

  /** Query `messages`: the checks come in this order, each before any message is
      read: a session, a user in it, an existing conversation, the caller's row in it.
      Then every message of the conversation, and no other, newest first. */
  function Messages(db: Store, session: Option<Session>, conversationId: Id): (r: Result<seq<Message>>)
    reads db
    ensures session.None? ==> r == Err(SessionUndefined)
    ensures session.Some? && session.value.user.None? ==> r == Err(NotAuthorized)
    ensures SignedIn(session) && !HasConversation(db.conversations, conversationId) ==> r == Err(ConversationNotFound)
    ensures SignedIn(session) && HasConversation(db.conversations, conversationId) ==>
              if exists p :: p in db.participants && p.conversationId == conversationId && p.userId == session.value.user.value.id
              then r.Ok? else r == Err(NotAuthorized)
    ensures r.Ok? ==> NewestFirst(r.value)
    ensures r.Ok? ==> forall m :: m in r.value <==> m in db.messages && m.conversationId == conversationId
    ensures r.Ok? ==> multiset(r.value) == multiset(MessagesOf(db.messages, conversationId))
  {
    if session.None? then Err(SessionUndefined)
    else if session.value.user.None? then Err(NotAuthorized)
    else
      var userId := session.value.user.value.id;
      match FindConversation(db.conversations, conversationId)
      case None => Err(ConversationNotFound)
      case Some(conversation) =>
        var rows := Populated(conversation, db.participants, db.messages).participants;
        if !IsParticipant(rows, userId) then
          assert forall p :: p in db.participants && p.conversationId == conversationId ==> p in rows;
          Err(NotAuthorized)
        else
          var i :| 0 <= i < |rows| && rows[i].userId == userId;
          assert rows[i] in rows;
          var ms := SortNewestFirst(MessagesOf(db.messages, conversationId));
          assert forall m :: m in ms <==> m in multiset(MessagesOf(db.messages, conversationId));
          Ok(ms)
  }

  // ---------------------------------------------------------------------------
  // Mutation: sendMessage

  /** The caller is signed in as the claimed sender. */
  predicate SignedInAs(session: Option<Session>, senderId: Id)
  {
    SignedIn(session) && session.value.user.value.id == senderId
  }

  /** The store writes of sendMessage, without the publishes. The checks come first
      and write nothing; then the message row is created; then the sender's row is
      looked up, and if it is missing the call fails with the message row left in
      place; otherwise the conversation's latest message and read state are updated. */
  method SendMessageWrites(db: Store, session: Option<Session>, id: Id, conversationId: Id, senderId: Id, body: string, createdAt: int)
    returns (r: Result<bool>)
    requires db.Valid()
    modifies db
    ensures db.Valid()
    ensures db.users == old(db.users) && db.nextRowId == old(db.nextRowId) && db.published == old(db.published)
    ensures session.None? ==> r == Err(SessionUndefined) && unchanged(db)
    ensures session.Some? && !SignedInAs(session, senderId) ==> r == Err(NotAuthorized) && unchanged(db)
    ensures SignedInAs(session, senderId) && !CanInsertMessage(old(db.messages), old(db.conversations), id, conversationId) ==>
              r == Err(SendMessageError) && unchanged(db)
    ensures SignedInAs(session, senderId) && CanInsertMessage(old(db.messages), old(db.conversations), id, conversationId) ==>
              db.messages == old(db.messages) + [Message(id, conversationId, senderId, body, createdAt)]
    ensures SignedInAs(session, senderId) && CanInsertMessage(old(db.messages), old(db.conversations), id, conversationId)
            && FindRow(old(db.participants), senderId, conversationId).None? ==>
              r == Err(SendMessageError) && db.conversations == old(db.conversations) && db.participants == old(db.participants)
    ensures SignedInAs(session, senderId) && CanInsertMessage(old(db.messages), old(db.conversations), id, conversationId)
            && FindRow(old(db.participants), senderId, conversationId).Some? ==>
              && r == Ok(true)
              && db.conversations == SetLatest(old(db.conversations), conversationId, id)
              && db.participants == AfterMessage(old(db.participants), conversationId,
                                                 FindRow(old(db.participants), senderId, conversationId).value.id, senderId)
  {
    if session.None? {
      return Err(SessionUndefined);
    }
    if session.value.user.None? {
      return Err(NotAuthorized);
    }
    var userId := session.value.user.value.id;
    if userId != senderId {
      return Err(NotAuthorized);
    }
    var message := Message(id, conversationId, senderId, body, createdAt);
    var created := db.InsertMessage(message);
    if !created {
      return Err(SendMessageError);
    }
    var participant := FindRow(db.participants, userId, conversationId);
    if participant.None? {
      return Err(SendMessageError);
    }
    db.UpdateAfterMessage(message, participant.value.id);
    return Ok(true);
  }

  /** Mutation `sendMessage`: the writes above; on success MESSAGE_SENT with the new
      message and then CONVERSATION_UPDATED with the updated conversation are
      published, after every write; on failure nothing is published. */
  method SendMessage(db: Store, session: Option<Session>, id: Id, conversationId: Id, senderId: Id, body: string, createdAt: int)
    returns (r: Result<bool>)
    requires db.Valid()
    modifies db
    ensures db.Valid()
    ensures db.users == old(db.users) && db.nextRowId == old(db.nextRowId)
    ensures session.None? ==> r == Err(SessionUndefined) && unchanged(db)
    ensures session.Some? && !SignedInAs(session, senderId) ==> r == Err(NotAuthorized) && unchanged(db)
    ensures SignedInAs(session, senderId) && !CanInsertMessage(old(db.messages), old(db.conversations), id, conversationId) ==>
              r == Err(SendMessageError) && unchanged(db)
    ensures SignedInAs(session, senderId) && CanInsertMessage(old(db.messages), old(db.conversations), id, conversationId) ==>
              db.messages == old(db.messages) + [Message(id, conversationId, senderId, body, createdAt)]
    ensures SignedInAs(session, senderId) && CanInsertMessage(old(db.messages), old(db.conversations), id, conversationId)
            && FindRow(old(db.participants), senderId, conversationId).None? ==>
              && r == Err(SendMessageError)
              && db.conversations == old(db.conversations) && db.participants == old(db.participants)
              && db.published == old(db.published)
    ensures SignedInAs(session, senderId) && CanInsertMessage(old(db.messages), old(db.conversations), id, conversationId)
            && FindRow(old(db.participants), senderId, conversationId).Some? ==>
              && r == Ok(true)
              && db.conversations == SetLatest(old(db.conversations), conversationId, id)
              && db.participants == AfterMessage(old(db.participants), conversationId,
                                                 FindRow(old(db.participants), senderId, conversationId).value.id, senderId)
              && FindConversation(db.conversations, conversationId).Some?
              && db.published == old(db.published) + [
                   MessageSent(Message(id, conversationId, senderId, body, createdAt)),
                   ConversationUpdated(Populated(FindConversation(db.conversations, conversationId).value, db.participants, db.messages))]
  {
    r := SendMessageWrites(db, session, id, conversationId, senderId, body, createdAt);
    if r.Ok? {
      SetLatestKeepsIds(old(db.conversations), conversationId, id, conversationId);
      var conversation := FindConversation(db.conversations, conversationId);
      db.Publish(MessageSent(Message(id, conversationId, senderId, body, createdAt)));
      db.Publish(ConversationUpdated(Populated(conversation.value, db.participants, db.messages)));
    }
  }

  /** The read state after a send: in the message's conversation exactly the sender's
      row has seen the latest message; rows of other conversations are untouched; no
      row changes its id, user or conversation. */
  lemma AfterMessageReadState(ps: seq<Participant>, cs: seq<Conversation>, nextRowId: nat, conversationId: Id, row: Participant, senderId: Id)
    requires RowsConsistent(ps, cs, nextRowId)
    requires row in ps && row.userId == senderId && row.conversationId == conversationId
    ensures |AfterMessage(ps, conversationId, row.id, senderId)| == |ps|
    ensures forall i :: 0 <= i < |ps| ==>
              var q := AfterMessage(ps, conversationId, row.id, senderId)[i];
              && q.id == ps[i].id && q.userId == ps[i].userId && q.conversationId == ps[i].conversationId
              && (ps[i].conversationId == conversationId ==> (q.hasSeenLatestMessage <==> ps[i].userId == senderId))
              && (ps[i].conversationId != conversationId ==> q == ps[i])
  {
    var r := AfterMessage(ps, conversationId, row.id, senderId);
    var k :| 0 <= k < |ps| && ps[k] == row;
    forall i | 0 <= i < |ps|
      ensures ps[i].conversationId == conversationId ==> (r[i].hasSeenLatestMessage <==> ps[i].userId == senderId)
      ensures ps[i].conversationId != conversationId ==> r[i] == ps[i]
    {
      if i != k && !(ps[i].conversationId == conversationId && ps[i].userId == senderId) {
        assert ps[i].id != ps[k].id;
      }
    }
  }

  /** The conversation published in CONVERSATION_UPDATED points at the new message. */
  lemma UpdatedLatestMessage(cs: seq<Conversation>, ms: seq<Message>, ps: seq<Participant>, m: Message)
    requires forall i, j :: 0 <= i < j < |cs| ==> cs[i].id != cs[j].id
    requires HasConversation(cs, m.conversationId)
    requires forall x :: x in ms ==> x.id != m.id
    ensures FindConversation(SetLatest(cs, m.conversationId, m.id), m.conversationId).Some?
    ensures Populated(FindConversation(SetLatest(cs, m.conversationId, m.id), m.conversationId).value, ps, ms + [m]).latestMessage == Some(m)
  {
    SetLatestKeepsIds(cs, m.conversationId, m.id, m.conversationId);
    var cs' := SetLatest(cs, m.conversationId, m.id);
    var c := FindConversation(cs', m.conversationId).value;
    assert c.latestMessageId == Some(m.id);
    FindAppended(ms, m);
  }

  lemma {:induction false} FindAppended(ms: seq<Message>, m: Message)
    requires forall x :: x in ms ==> x.id != m.id
    ensures FindMessage(ms + [m], m.id) == Some(m)
  {
    if ms != [] {
      assert ms[0] in ms;
      assert (ms + [m])[1..] == ms[1..] + [m];
      assert forall x :: x in ms[1..] ==> x in ms;
      FindAppended(ms[1..], m);
    } else {
      assert ms + [m] == [m];
    }
  }

  /** The read-state flip changes no one's membership: CONVERSATION_UPDATED reaches a
      signed-in subscriber exactly when the subscriber had a row in the conversation. */
  lemma UpdatedEventAudience(ps: seq<Participant>, c: Conversation, ms: seq<Message>,
                             rowId: nat, senderId: Id, subscriber: User, expires: string)
    ensures ConversationResolvers.ConversationUpdatedFilter(
              ConversationUpdated(Populated(c, AfterMessage(ps, c.id, rowId, senderId), ms)),
              Some(Session(Some(subscriber), expires)))
            == Ok(exists p :: p in ps && p.conversationId == c.id && p.userId == subscriber.id)
  {
    var ps' := AfterMessage(ps, c.id, rowId, senderId);
    FlipKeepsMembers(ps, c.id, rowId, senderId, subscriber.id);
    assert Populated(c, ps', ms).participants == RowsOf(ps', c.id);
  }

  lemma FlipKeepsMembers(ps: seq<Participant>, conversationId: Id, rowId: nat, senderId: Id, userId: Id)
    ensures IsParticipant(RowsOf(AfterMessage(ps, conversationId, rowId, senderId), conversationId), userId)
            <==> exists p :: p in ps && p.conversationId == conversationId && p.userId == userId
  {
    var ps' := AfterMessage(ps, conversationId, rowId, senderId);
    var rows := RowsOf(ps', conversationId);
    if exists p :: p in ps && p.conversationId == conversationId && p.userId == userId {
      var p :| p in ps && p.conversationId == conversationId && p.userId == userId;
      var i :| 0 <= i < |ps| && ps[i] == p;
      assert ps'[i].conversationId == conversationId && ps'[i].userId == userId;
      assert ps'[i] in rows;
      var j :| 0 <= j < |rows| && rows[j] == ps'[i];
    }
    if IsParticipant(rows, userId) {
      var j :| 0 <= j < |rows| && rows[j].userId == userId;
      assert rows[j] in ps';
      var i :| 0 <= i < |ps'| && ps'[i] == rows[j];
      assert ps[i] in ps && ps[i].userId == userId && ps[i].conversationId == conversationId;
    }
  }

  // ---------------------------------------------------------------------------
  // Subscription filter

  /** Filter of `messageSent`: delivers exactly the messages of the subscribed
      conversation; it looks at no session and checks no membership. */
  function MessageSentFilter(e: Event, conversationId: Id): (r: bool)
    requires e.MessageSent?
    ensures r <==> e.message.conversationId == conversationId
  {
    e.message.conversationId == conversationId
  }
}
