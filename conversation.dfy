/** The conversation resolvers: the `conversations` query, the `createConversation`
    and `markConversationAsRead` mutations, and the filters of the
    `conversationCreated` and `conversationUpdated` subscriptions. */
module ConversationResolvers {
  import opened Types
  import opened Membership
  import opened Db

  // ---------------------------------------------------------------------------
  // Query: conversations

  /** The stored conversations in which `userId` has a participant row, populated, in store order. */
  function Visible(cs: seq<Conversation>, ps: seq<Participant>, ms: seq<Message>, userId: Id): (r: seq<ConversationView>)
    ensures |r| <= |cs|
    ensures forall v :: v in r ==> v.conversation in cs && v == Populated(v.conversation, ps, ms)
                                   && IsParticipant(v.participants, userId)
    ensures forall c :: c in cs && IsParticipant(RowsOf(ps, c.id), userId) ==> Populated(c, ps, ms) in r
  {
    if cs == [] then []
    else (if IsParticipant(RowsOf(ps, cs[0].id), userId) then [Populated(cs[0], ps, ms)] else [])
         + Visible(cs[1..], ps, ms, userId)
  }

  /** Visible keeps the store's order: it distributes over concatenation. */
  lemma {:induction false} VisibleConcat(a: seq<Conversation>, b: seq<Conversation>, ps: seq<Participant>, ms: seq<Message>, userId: Id)
    ensures Visible(a + b, ps, ms, userId) == Visible(a, ps, ms, userId) + Visible(b, ps, ms, userId)
  {
    if a != [] {
      assert (a + b)[1..] == a[1..] + b;
      VisibleConcat(a[1..], b, ps, ms, userId);
    } else {
      assert a + b == b;
    }
  }

  /** Query `conversations`: without a signed-in user it throws; otherwise it returns
      the conversations in which the caller has a participant row. */
  function Conversations(db: Store, session: Option<Session>): (r: Result<seq<ConversationView>>)
    reads db
    ensures !SignedIn(session) <==> r == Err(NotAuthorized)
    ensures r.Ok? ==> forall c :: c in db.conversations ==>
              (Populated(c, db.participants, db.messages) in r.value <==>
               exists p :: p in db.participants && p.conversationId == c.id && p.userId == session.value.user.value.id)
    ensures r.Ok? ==> forall v :: v in r.value ==> v.conversation in db.conversations
  {
    if !SignedIn(session) then Err(NotAuthorized)
    else
      var userId := session.value.user.value.id;
      var r := Visible(db.conversations, db.participants, db.messages, userId);
      assert forall c :: c in db.conversations && Populated(c, db.participants, db.messages) in r ==>
                 exists p :: p in db.participants && p.conversationId == c.id && p.userId == userId by {
        forall c | c in db.conversations && Populated(c, db.participants, db.messages) in r
          ensures exists p :: p in db.participants && p.conversationId == c.id && p.userId == userId
        {
          var rows := RowsOf(db.participants, c.id);
          var i :| 0 <= i < |rows| && rows[i].userId == userId;
          assert rows[i] in rows;
        }
      }
      Ok(r)
  }

  // ---------------------------------------------------------------------------
  // Mutation: createConversation

  /** The rows handed to `createMany`: one per id, seen only where the id is the caller's. */
  function SeedData(userIds: seq<Id>, callerId: Id): (r: seq<RowData>)
    ensures |r| == |userIds|
  {
    seq(|userIds|, i requires 0 <= i < |userIds| => RowData(userIds[i], userIds[i] == callerId))
  }

  /** The ids of the parsed participant records. */
  function UserIds(participants: seq<ParticipantInput>): (r: seq<Id>)
    ensures |r| == |participants|
  {
    seq(|participants|, i requires 0 <= i < |participants| => participants[i].id)
  }

  /** The rows createConversation makes: one per listed id, in the listed order, and
      only a row whose id is the caller's has seen the latest message. */
  lemma SeededRows(newId: Id, userIds: seq<Id>, callerId: Id, first: nat)
    ensures forall i :: 0 <= i < |userIds| ==>
              var p := Materialize(newId, SeedData(userIds, callerId), first)[i];
              p.userId == userIds[i] && p.conversationId == newId && (p.hasSeenLatestMessage <==> userIds[i] == callerId)
    ensures forall u :: IsParticipant(Materialize(newId, SeedData(userIds, callerId), first), u) <==> u in userIds
  {
    var rows := Materialize(newId, SeedData(userIds, callerId), first);
    forall u ensures IsParticipant(rows, u) <==> u in userIds {
      if u in userIds {
        var i :| 0 <= i < |userIds| && userIds[i] == u;
        assert rows[i].userId == u;
      }
    }
  }

  /** After a successful create, the rows of the new conversation are exactly the rows just made. */
  lemma CreatedRows(ps: seq<Participant>, cs: seq<Conversation>, nextRowId: nat, newId: Id, rows: seq<Participant>)
    requires RowsConsistent(ps, cs, nextRowId)
    requires !HasConversation(cs, newId)
    requires forall p :: p in rows ==> p.conversationId == newId
    ensures RowsOf(ps + rows, newId) == rows
  {
    RowsOfConcat(ps, rows, newId);
    forall p | p in ps ensures p.conversationId != newId {
      assert HasConversation(cs, p.conversationId);
    }
    RowsOfNone(ps, newId);
    RowsOfAll(rows, newId);
  }

  /** The store writes of createConversation, without the publish: a caller without a
      user is refused; otherwise the conversation is created with one row per id. */
  method CreateConversationWrites(db: Store, participantIds: seq<Id>, session: Session, newId: Id) returns (r: Result<Id>)
    requires db.Valid()
    modifies db
    ensures db.Valid()
    ensures db.users == old(db.users) && db.messages == old(db.messages) && db.published == old(db.published)
    ensures session.user.None? ==> r == Err(NotAuthorized) && unchanged(db)
    ensures session.user.Some? && !CanInsertConversation(old(db.conversations), newId, SeedData(participantIds, session.user.value.id)) ==>
              r == Err(CreateConversationError) && unchanged(db)
    ensures session.user.Some? && CanInsertConversation(old(db.conversations), newId, SeedData(participantIds, session.user.value.id)) ==>
              && r == Ok(newId)
              && db.conversations == old(db.conversations) + [Conversation(newId, None)]
              && db.participants == old(db.participants) + Materialize(newId, SeedData(participantIds, session.user.value.id), old(db.nextRowId))
  {
    if session.user.None? {
      return Err(NotAuthorized);
    }
    var userId := session.user.value.id;
    var ok := db.InsertConversation(newId, SeedData(participantIds, userId));
    if !ok {
      return Err(CreateConversationError);
    }
    return Ok(newId);
  }

  /** Mutation `createConversation`: the writes above, then one CONVERSATION_CREATED
      event with the populated new conversation, published only when the create succeeded. */
  method CreateConversation(db: Store, participants: seq<ParticipantInput>, session: Session, newId: Id) returns (r: Result<Id>)
    requires db.Valid()
    modifies db
    ensures db.Valid()
    ensures db.users == old(db.users) && db.messages == old(db.messages)
    ensures session.user.None? ==> r == Err(NotAuthorized) && unchanged(db)
    ensures session.user.Some? ==>
              var rows := SeedData(UserIds(participants), session.user.value.id);
              if CanInsertConversation(old(db.conversations), newId, rows) then
                && r == Ok(newId)
                && db.conversations == old(db.conversations) + [Conversation(newId, None)]
                && db.participants == old(db.participants) + Materialize(newId, rows, old(db.nextRowId))
                && db.published == old(db.published) + [ConversationCreated(ConversationView(Conversation(newId, None), Materialize(newId, rows, old(db.nextRowId)), None))]
              else
                r == Err(CreateConversationError) && unchanged(db)
  {
    ghost var ps, cs, next := db.participants, db.conversations, db.nextRowId;
    r := CreateConversationWrites(db, UserIds(participants), session, newId);
    if r.Ok? {
      var view := Populated(Conversation(newId, None), db.participants, db.messages);
      CreatedRows(ps, cs, next, newId, Materialize(newId, SeedData(UserIds(participants), session.user.value.id), next));
      db.Publish(ConversationCreated(view));
    }
  }

  // ---------------------------------------------------------------------------
  // Mutation: markConversationAsRead

  /** The participant rows after marking the (userId, conversationId) row as read;
      nothing changes when there is no such row. */
  function MarkRead(ps: seq<Participant>, userId: Id, conversationId: Id): (r: seq<Participant>)
    ensures |r| == |ps|
    ensures forall i :: 0 <= i < |ps| ==>
              r[i].id == ps[i].id && r[i].userId == ps[i].userId && r[i].conversationId == ps[i].conversationId
    ensures FindRow(ps, userId, conversationId).Some? ==>
              exists i :: 0 <= i < |r| && r[i].userId == userId && r[i].conversationId == conversationId && r[i].hasSeenLatestMessage
  {
    match FindRow(ps, userId, conversationId)
    case None => ps
    case Some(p) => SetSeen(ps, p.id)
  }

  /** Only the (userId, conversationId) row changes, and it ends up read. */
  lemma MarkReadEffect(ps: seq<Participant>, cs: seq<Conversation>, nextRowId: nat, userId: Id, conversationId: Id)
    requires RowsConsistent(ps, cs, nextRowId)
    ensures |MarkRead(ps, userId, conversationId)| == |ps|
    ensures forall i :: 0 <= i < |ps| ==>
              if ps[i].userId == userId && ps[i].conversationId == conversationId
              then MarkRead(ps, userId, conversationId)[i] == ps[i].(hasSeenLatestMessage := true)
              else MarkRead(ps, userId, conversationId)[i] == ps[i]
  {
    var r := MarkRead(ps, userId, conversationId);
    if FindRow(ps, userId, conversationId).Some? {
      var p := FindRow(ps, userId, conversationId).value;
      var k :| 0 <= k < |ps| && ps[k] == p;
      forall i | 0 <= i < |ps|
        ensures if ps[i].userId == userId && ps[i].conversationId == conversationId
                then r[i] == ps[i].(hasSeenLatestMessage := true) else r[i] == ps[i]
      {
        if i != k && !(ps[i].userId == userId && ps[i].conversationId == conversationId) {
          assert ps[i].id != ps[k].id;
        }
      }
    }
  }

  /** Marking the same row read twice is the same as marking it once. */
  lemma MarkReadIdempotent(ps: seq<Participant>, userId: Id, conversationId: Id)
    ensures MarkRead(MarkRead(ps, userId, conversationId), userId, conversationId) == MarkRead(ps, userId, conversationId)
  {
    var once := MarkRead(ps, userId, conversationId);
    FindRowSameKeys(ps, once, userId, conversationId);
    if FindRow(ps, userId, conversationId).Some? {
      var id := FindRow(ps, userId, conversationId).value.id;
      assert FindRow(once, userId, conversationId).value.id == id;
      assert SetSeen(once, id) == once;
    }
  }

  /** A second `markConversationAsRead` on the same (userId, conversationId) finds its
      row exactly when the first did, so a redundant call succeeds again. */
  lemma MarkReadKeepsRow(ps: seq<Participant>, userId: Id, conversationId: Id)
    ensures FindRow(MarkRead(ps, userId, conversationId), userId, conversationId).Some?
            <==> FindRow(ps, userId, conversationId).Some?
  {
    FindRowSameKeys(ps, MarkRead(ps, userId, conversationId), userId, conversationId);
  }

  /** FindRow looks only at the ids, user ids and conversation ids of the rows. */
  lemma {:induction false} FindRowSameKeys(ps: seq<Participant>, qs: seq<Participant>, userId: Id, conversationId: Id)
    requires |ps| == |qs|
    requires forall i :: 0 <= i < |ps| ==>
               ps[i].id == qs[i].id && ps[i].userId == qs[i].userId && ps[i].conversationId == qs[i].conversationId
    ensures FindRow(ps, userId, conversationId).Some? <==> FindRow(qs, userId, conversationId).Some?
    ensures FindRow(ps, userId, conversationId).Some? ==>
              FindRow(ps, userId, conversationId).value.id == FindRow(qs, userId, conversationId).value.id
  {
    if ps != [] && !(ps[0].userId == userId && ps[0].conversationId == conversationId) {
      FindRowSameKeys(ps[1..], qs[1..], userId, conversationId);
    }
  }

  /** Mutation `markConversationAsRead`: needs a signed-in user (any user: `userId` is
      not checked against the caller); marks the (userId, conversationId) row read
      and returns true. With no such row the store's update by an absent id fails. */
  method MarkConversationAsRead(db: Store, session: Session, userId: Id, conversationId: Id) returns (r: Result<bool>)
    requires db.Valid()
    modifies db
    ensures db.Valid()
    ensures db.users == old(db.users) && db.conversations == old(db.conversations) && db.messages == old(db.messages)
    ensures db.nextRowId == old(db.nextRowId) && db.published == old(db.published)
    ensures session.user.None? ==> r == Err(NotAuthorized) && db.participants == old(db.participants)
    ensures session.user.Some? && FindRow(old(db.participants), userId, conversationId).None? ==>
              r == Err(MissingWhereId) && db.participants == old(db.participants)
    ensures session.user.Some? && FindRow(old(db.participants), userId, conversationId).Some? ==>
              r == Ok(true) && db.participants == MarkRead(old(db.participants), userId, conversationId)
  {
    if session.user.None? {
      return Err(NotAuthorized);
    }
    var participant := FindRow(db.participants, userId, conversationId);
    if participant.None? {
      return Err(MissingWhereId);
    }
    db.MarkRowSeen(participant.value.id);
    return Ok(true);
  }

  // ---------------------------------------------------------------------------
  // Subscription filters

  /** Filter of `conversationCreated`: throws for a subscriber without a user, else
      delivers exactly to the participants of the created conversation. */
  function ConversationCreatedFilter(e: Event, session: Option<Session>): (r: Result<bool>)
    requires e.ConversationCreated?
    ensures !SignedIn(session) <==> r == Err(NotAuthorized)
    ensures r.Ok? ==> (r.value <==> exists i :: 0 <= i < |e.created.participants| &&
                                                e.created.participants[i].userId == session.value.user.value.id)
  {
    if !SignedIn(session) then Err(NotAuthorized)
    else Ok(IsParticipant(e.created.participants, session.value.user.value.id))
  }

  /** Filter of `conversationUpdated`: the same rule on the updated conversation. */
  function ConversationUpdatedFilter(e: Event, session: Option<Session>): (r: Result<bool>)
    requires e.ConversationUpdated?
    ensures !SignedIn(session) <==> r == Err(NotAuthorized)
    ensures r.Ok? ==> (r.value <==> exists i :: 0 <= i < |e.updated.participants| &&
                                                e.updated.participants[i].userId == session.value.user.value.id)
  {
    if !SignedIn(session) then Err(NotAuthorized)
    else Ok(IsParticipant(e.updated.participants, session.value.user.value.id))
  }

  /** The event createConversation publishes reaches a signed-in subscriber exactly when
      the subscriber's id was among the listed participants. */
  lemma CreatedEventAudience(nextRowId: nat, newId: Id, userIds: seq<Id>, callerId: Id, subscriber: User, expires: string)
    ensures ConversationCreatedFilter(
              ConversationCreated(ConversationView(Conversation(newId, None), Materialize(newId, SeedData(userIds, callerId), nextRowId), None)),
              Some(Session(Some(subscriber), expires)))
            == Ok(subscriber.id in userIds)
  {
    SeededRows(newId, userIds, callerId, nextRowId);
  }
}
