/** The relational store the resolvers talk to, reduced to the tables they use, and
    the event bus they publish on, reduced to the log of what was published. */
module Db {
  import opened Types

  // ---------------------------------------------------------------------------
  // Reads on the tables

  /** The participant rows of one conversation, in store order. */
  function RowsOf(ps: seq<Participant>, conversationId: Id): (r: seq<Participant>)
    ensures |r| <= |ps|
    ensures forall p :: p in r <==> p in ps && p.conversationId == conversationId
  {
    if ps == [] then []
    else (if ps[0].conversationId == conversationId then [ps[0]] else []) + RowsOf(ps[1..], conversationId)
  }

  /** Selecting rows distributes over concatenation, so it keeps the store's order. */
  lemma {:induction false} RowsOfConcat(a: seq<Participant>, b: seq<Participant>, conversationId: Id)
    ensures RowsOf(a + b, conversationId) == RowsOf(a, conversationId) + RowsOf(b, conversationId)
  {
    if a == [] {
      assert a + b == b;
    } else {
      assert (a + b)[1..] == a[1..] + b;
      RowsOfConcat(a[1..], b, conversationId);
    }
  }

  /** No row is selected when none belongs to the conversation. */
  lemma {:induction false} RowsOfNone(ps: seq<Participant>, conversationId: Id)
    requires forall p :: p in ps ==> p.conversationId != conversationId
    ensures RowsOf(ps, conversationId) == []
  {
    if ps != [] {
      assert ps[0] in ps;
      assert forall p :: p in ps[1..] ==> p in ps;
      RowsOfNone(ps[1..], conversationId);
    }
  }

  /** Rows that all belong to the conversation are all selected, in order. */
  lemma {:induction false} RowsOfAll(ps: seq<Participant>, conversationId: Id)
    requires forall p :: p in ps ==> p.conversationId == conversationId
    ensures RowsOf(ps, conversationId) == ps
  {
    if ps != [] {
      assert ps[0] in ps;
      assert forall p :: p in ps[1..] ==> p in ps;
      RowsOfAll(ps[1..], conversationId);
      assert ps == [ps[0]] + ps[1..];
    }
  }

  /** The messages of one conversation, in store order. */
  function MessagesOf(ms: seq<Message>, conversationId: Id): (r: seq<Message>)
    ensures |r| <= |ms|
    ensures forall m :: m in r <==> m in ms && m.conversationId == conversationId
  {
    if ms == [] then []
    else (if ms[0].conversationId == conversationId then [ms[0]] else []) + MessagesOf(ms[1..], conversationId)
  }

  /** `findFirst({where: {userId, conversationId}})` on the participant rows. */
  function FindRow(ps: seq<Participant>, userId: Id, conversationId: Id): (r: Option<Participant>)
    ensures r.Some? ==> r.value in ps && r.value.userId == userId && r.value.conversationId == conversationId
    ensures r.None? <==> forall p :: p in ps ==> p.userId != userId || p.conversationId != conversationId
  {
    if ps == [] then None
    else if ps[0].userId == userId && ps[0].conversationId == conversationId then Some(ps[0])
    else FindRow(ps[1..], userId, conversationId)
  }

  /** `findUnique({where: {id}})` on the conversations. */
  function FindConversation(cs: seq<Conversation>, id: Id): (r: Option<Conversation>)
    ensures r.Some? ==> r.value in cs && r.value.id == id
    ensures r.None? <==> forall c :: c in cs ==> c.id != id
  {
    if cs == [] then None
    else if cs[0].id == id then Some(cs[0])
    else FindConversation(cs[1..], id)
  }

  /** `findUnique({where: {id}})` on the messages. */
  function FindMessage(ms: seq<Message>, id: Id): (r: Option<Message>)
    ensures r.Some? ==> r.value in ms && r.value.id == id
    ensures r.None? <==> forall m :: m in ms ==> m.id != id
  {
    if ms == [] then None
    else if ms[0].id == id then Some(ms[0])
    else FindMessage(ms[1..], id)
  }

  /** A conversation read with its participant rows and its latest message. */
  function Populated(c: Conversation, ps: seq<Participant>, ms: seq<Message>): (v: ConversationView)
    ensures v.conversation == c
    ensures forall p :: p in v.participants <==> p in ps && p.conversationId == c.id
    ensures v.latestMessage.Some? <==> c.latestMessageId.Some? && exists m :: m in ms && m.id == c.latestMessageId.value
    ensures v.latestMessage.Some? ==> v.latestMessage.value in ms && v.latestMessage.value.id == c.latestMessageId.value
  {
    ConversationView(c, RowsOf(ps, c.id), if c.latestMessageId.Some? then FindMessage(ms, c.latestMessageId.value) else None)
  }

  // ---------------------------------------------------------------------------
  // The constraints the store keeps

  predicate HasConversation(cs: seq<Conversation>, id: Id)
  {
    exists c :: c in cs && c.id == id
  }

  predicate HasUser(users: seq<User>, id: Id)
  {
    exists u :: u in users && u.id == id
  }

  /** Some user already has this username (`findUnique({where: {username}})` finds a record). */
  predicate UsernameTaken(users: seq<User>, username: string)
  {
    exists u :: u in users && u.username == username
  }

  /** Primary key on user ids; unique usernames. */
  predicate UsersConsistent(users: seq<User>)
  {
    forall i, j :: 0 <= i < j < |users| ==> users[i].id != users[j].id && users[i].username != users[j].username
  }

  /** Primary key on participant rows, one row per (user, conversation), every row in a stored conversation. */
  predicate RowsConsistent(ps: seq<Participant>, cs: seq<Conversation>, nextRowId: nat)
  {
    && (forall i, j :: 0 <= i < j < |ps| ==>
          ps[i].id != ps[j].id && (ps[i].userId != ps[j].userId || ps[i].conversationId != ps[j].conversationId))
    && (forall p :: p in ps ==> p.id < nextRowId && HasConversation(cs, p.conversationId))
  }

  /** Primary key on message ids; every message in a stored conversation. */
  predicate MessagesConsistent(ms: seq<Message>, cs: seq<Conversation>)
  {
    && (forall i, j :: 0 <= i < j < |ms| ==> ms[i].id != ms[j].id)
    && (forall m :: m in ms ==> HasConversation(cs, m.conversationId))
  }

  /** Primary key on conversation ids; a latest message belongs to its own conversation. */
  predicate ConversationsConsistent(cs: seq<Conversation>, ms: seq<Message>)
  {
    && (forall i, j :: 0 <= i < j < |cs| ==> cs[i].id != cs[j].id)
    && (forall c :: c in cs && c.latestMessageId.Some? ==>
          exists m :: m in ms && m.id == c.latestMessageId.value && m.conversationId == c.id)
  }

  predicate Consistent(users: seq<User>, cs: seq<Conversation>, ps: seq<Participant>, ms: seq<Message>, nextRowId: nat)
  {
    && UsersConsistent(users)
    && ConversationsConsistent(cs, ms)
    && RowsConsistent(ps, cs, nextRowId)
    && MessagesConsistent(ms, cs)
  }

  // ---------------------------------------------------------------------------
  // Writes on the tables, as functions of the old table

  /** A conversation create succeeds when its id is new and no user is listed twice. */
  predicate CanInsertConversation(cs: seq<Conversation>, id: Id, rows: seq<RowData>)
  {
    && !HasConversation(cs, id)
    && forall i, j :: 0 <= i < j < |rows| ==> rows[i].userId != rows[j].userId
  }

  /** The participant rows `createMany` makes from `rows`, numbered from `first`. */
  function Materialize(conversationId: Id, rows: seq<RowData>, first: nat): (r: seq<Participant>)
    ensures |r| == |rows|
  {
    seq(|rows|, i requires 0 <= i < |rows| =>
      Participant(first + i, conversationId, rows[i].userId, rows[i].hasSeenLatestMessage))
  }

  /** A message create succeeds when its id is new and its conversation exists. */
  predicate CanInsertMessage(ms: seq<Message>, cs: seq<Conversation>, id: Id, conversationId: Id)
  {
    !(exists m :: m in ms && m.id == id) && HasConversation(cs, conversationId)
  }

  /** `latestMessageId` of conversation `id` set to `messageId`. */
  function SetLatest(cs: seq<Conversation>, id: Id, messageId: Id): (r: seq<Conversation>)
    ensures |r| == |cs|
  {
    seq(|cs|, i requires 0 <= i < |cs| =>
      if cs[i].id == id then cs[i].(latestMessageId := Some(messageId)) else cs[i])
  }

  /** The participant row `rowId` marked as having seen the latest message. */
  function SetSeen(ps: seq<Participant>, rowId: nat): (r: seq<Participant>)
    ensures |r| == |ps|
  {
    seq(|ps|, i requires 0 <= i < |ps| =>
      if ps[i].id == rowId then ps[i].(hasSeenLatestMessage := true) else ps[i])
  }

  /** The read-state flip of sendMessage: row `rowId` seen; every other row of the
      conversation whose user is not `senderId` unseen; rows elsewhere untouched. */
  function AfterMessage(ps: seq<Participant>, conversationId: Id, rowId: nat, senderId: Id): (r: seq<Participant>)
    ensures |r| == |ps|
  {
    seq(|ps|, i requires 0 <= i < |ps| =>
      if ps[i].id == rowId then ps[i].(hasSeenLatestMessage := true)
      else if ps[i].conversationId == conversationId && ps[i].userId != senderId then ps[i].(hasSeenLatestMessage := false)
      else ps[i])
  }

  /** The username of user `userId` set to `username`. */
  function SetUsername(users: seq<User>, userId: Id, username: string): (r: seq<User>)
    ensures |r| == |users|
  {
    seq(|users|, i requires 0 <= i < |users| =>
      if users[i].id == userId then users[i].(username := username) else users[i])
  }

  // ---------------------------------------------------------------------------
  // The writes keep the constraints

  lemma InsertConversationKeepsConsistent(users: seq<User>, cs: seq<Conversation>, ps: seq<Participant>, ms: seq<Message>,
                                          nextRowId: nat, id: Id, rows: seq<RowData>)
    requires Consistent(users, cs, ps, ms, nextRowId)
    requires CanInsertConversation(cs, id, rows)
    ensures Consistent(users, cs + [Conversation(id, None)], ps + Materialize(id, rows, nextRowId), ms, nextRowId + |rows|)
  {
    var cs', ps' := cs + [Conversation(id, None)], ps + Materialize(id, rows, nextRowId);
    forall i, j | 0 <= i < j < |ps'|
      ensures ps'[i].id != ps'[j].id && (ps'[i].userId != ps'[j].userId || ps'[i].conversationId != ps'[j].conversationId)
    {
      if j >= |ps| && i < |ps| {
        assert ps[i] in ps;
        assert ps'[i].conversationId != id;
      }
    }
    forall p | p in ps' ensures p.id < nextRowId + |rows| && HasConversation(cs', p.conversationId) {
      if p in ps {
        var c :| c in cs && c.id == p.conversationId;
        assert c in cs';
      } else {
        assert Conversation(id, None) in cs';
      }
    }
    forall c | c in cs' && c.latestMessageId.Some?
      ensures exists m :: m in ms && m.id == c.latestMessageId.value && m.conversationId == c.id
    {
      assert c in cs;
    }
    forall m | m in ms ensures HasConversation(cs', m.conversationId) {
      var c :| c in cs && c.id == m.conversationId;
      assert c in cs';
    }
    forall i, j | 0 <= i < j < |cs'| ensures cs'[i].id != cs'[j].id {
      if j == |cs| { assert cs[i] in cs; }
    }
  }

  lemma InsertMessageKeepsConsistent(users: seq<User>, cs: seq<Conversation>, ps: seq<Participant>, ms: seq<Message>,
                                     nextRowId: nat, m: Message)
    requires Consistent(users, cs, ps, ms, nextRowId)
    requires CanInsertMessage(ms, cs, m.id, m.conversationId)
    ensures Consistent(users, cs, ps, ms + [m], nextRowId)
  {
    var ms' := ms + [m];
    forall i, j | 0 <= i < j < |ms'| ensures ms'[i].id != ms'[j].id {
      if j == |ms| { assert ms[i] in ms; }
    }
    forall c | c in cs && c.latestMessageId.Some?
      ensures exists m' :: m' in ms' && m'.id == c.latestMessageId.value && m'.conversationId == c.id
    {
      var m' :| m' in ms && m'.id == c.latestMessageId.value && m'.conversationId == c.id;
      assert m' in ms';
    }
  }

  lemma SetSeenKeepsConsistent(users: seq<User>, cs: seq<Conversation>, ps: seq<Participant>, ms: seq<Message>,
                               nextRowId: nat, rowId: nat)
    requires Consistent(users, cs, ps, ms, nextRowId)
    ensures Consistent(users, cs, SetSeen(ps, rowId), ms, nextRowId)
  {
    var ps' := SetSeen(ps, rowId);
    forall p | p in ps' ensures p.id < nextRowId && HasConversation(cs, p.conversationId) {
      var i :| 0 <= i < |ps'| && ps'[i] == p;
      assert ps[i] in ps;
    }
  }

  lemma AfterMessageKeepsConsistent(users: seq<User>, cs: seq<Conversation>, ps: seq<Participant>, ms: seq<Message>,
                                    nextRowId: nat, m: Message, rowId: nat)
    requires Consistent(users, cs, ps, ms, nextRowId)
    requires m in ms
    ensures Consistent(users, SetLatest(cs, m.conversationId, m.id), AfterMessage(ps, m.conversationId, rowId, m.senderId), ms, nextRowId)
  {
    var cs', ps' := SetLatest(cs, m.conversationId, m.id), AfterMessage(ps, m.conversationId, rowId, m.senderId);
    forall c | c in cs' && c.latestMessageId.Some?
      ensures exists m' :: m' in ms && m'.id == c.latestMessageId.value && m'.conversationId == c.id
    {
      var i :| 0 <= i < |cs'| && cs'[i] == c;
      if cs[i].id != m.conversationId {
        assert cs[i] in cs;
      }
    }
    forall p | p in ps' ensures p.id < nextRowId && HasConversation(cs', p.conversationId) {
      var i :| 0 <= i < |ps'| && ps'[i] == p;
      assert ps[i] in ps;
      SetLatestKeepsIds(cs, m.conversationId, m.id, p.conversationId);
    }
    forall m' | m' in ms ensures HasConversation(cs', m'.conversationId) {
      SetLatestKeepsIds(cs, m.conversationId, m.id, m'.conversationId);
    }
  }

  /** Updating `latestMessageId` neither loses nor adds a conversation id. */
  lemma SetLatestKeepsIds(cs: seq<Conversation>, id: Id, messageId: Id, x: Id)
    ensures HasConversation(SetLatest(cs, id, messageId), x) <==> HasConversation(cs, x)
  {
    var cs' := SetLatest(cs, id, messageId);
    if HasConversation(cs, x) {
      var c :| c in cs && c.id == x;
      var i :| 0 <= i < |cs| && cs[i] == c;
      assert cs'[i].id == x;
    }
    if HasConversation(cs', x) {
      var c :| c in cs' && c.id == x;
      var i :| 0 <= i < |cs'| && cs'[i] == c;
      assert cs[i] in cs;
    }
  }

  lemma SetUsernameKeepsConsistent(users: seq<User>, cs: seq<Conversation>, ps: seq<Participant>, ms: seq<Message>,
                                   nextRowId: nat, userId: Id, username: string)
    requires Consistent(users, cs, ps, ms, nextRowId)
    requires !UsernameTaken(users, username)
    ensures Consistent(SetUsername(users, userId, username), cs, ps, ms, nextRowId)
  {
    var users' := SetUsername(users, userId, username);
    forall i, j | 0 <= i < j < |users'| ensures users'[i].id != users'[j].id && users'[i].username != users'[j].username {
      assert users[i] in users && users[j] in users;
    }
  }

  // ---------------------------------------------------------------------------
  // The store

  /** The tables the resolvers read and write, and the log of published events. */
  class Store {
    var users: seq<User>
    var conversations: seq<Conversation>
    var participants: seq<Participant>
    var messages: seq<Message>
    /** The id the store gives the next participant row it creates. */
    var nextRowId: nat
    /** Every payload published on the bus, oldest first. */
    var published: seq<Event>

    ghost predicate Valid()
      reads this
    {
      Consistent(users, conversations, participants, messages, nextRowId)
    }

    /** A store holding the given users (they are created outside this server) and nothing else. */
    constructor (users: seq<User>)
      requires UsersConsistent(users)
      ensures Valid()
      ensures this.users == users && conversations == [] && participants == [] && messages == [] && published == []
    {
      this.users := users;
      conversations, participants, messages := [], [], [];
      nextRowId := 0;
      published := [];
    }

    /** `prisma.conversation.create` with nested `participants.createMany`: the
        conversation and all its rows are created, or nothing is. */
    method InsertConversation(id: Id, rows: seq<RowData>) returns (ok: bool)
      requires Valid()
      modifies this
      ensures Valid()
      ensures ok <==> CanInsertConversation(old(conversations), id, rows)
      ensures ok ==> (conversations == old(conversations) + [Conversation(id, None)]
                      && participants == old(participants) + Materialize(id, rows, old(nextRowId))
                      && nextRowId == old(nextRowId) + |rows|)
      ensures !ok ==> unchanged(this)
      ensures users == old(users) && messages == old(messages) && published == old(published)
    {
      ok := !HasConversation(conversations, id) && forall i, j :: 0 <= i < j < |rows| ==> rows[i].userId != rows[j].userId;
      if ok {
        InsertConversationKeepsConsistent(users, conversations, participants, messages, nextRowId, id, rows);
        conversations := conversations + [Conversation(id, None)];
        participants := participants + Materialize(id, rows, nextRowId);
        nextRowId := nextRowId + |rows|;
      }
    }

    /** `prisma.message.create`: fails on a taken id or a missing conversation. */
    method InsertMessage(m: Message) returns (ok: bool)
      requires Valid()
      modifies this
      ensures Valid()
      ensures ok <==> CanInsertMessage(old(messages), old(conversations), m.id, m.conversationId)
      ensures !ok ==> unchanged(this)
      ensures ok ==> messages == old(messages) + [m]
      ensures users == old(users) && conversations == old(conversations) && participants == old(participants)
      ensures nextRowId == old(nextRowId) && published == old(published)
    {
      ok := !(exists m' :: m' in messages && m'.id == m.id) && HasConversation(conversations, m.conversationId);
      if ok {
        InsertMessageKeepsConsistent(users, conversations, participants, messages, nextRowId, m);
        messages := messages + [m];
      }
    }

    /** `prisma.conversation.update` of sendMessage: the latest message id, the
        sender's row (`update`) and the other rows of the conversation (`updateMany`). */
    method UpdateAfterMessage(m: Message, rowId: nat)
      requires Valid()
      requires m in messages
      requires exists p :: p in participants && p.id == rowId && p.conversationId == m.conversationId && p.userId == m.senderId
      modifies this
      ensures Valid()
      ensures conversations == SetLatest(old(conversations), m.conversationId, m.id)
      ensures participants == AfterMessage(old(participants), m.conversationId, rowId, m.senderId)
      ensures users == old(users) && messages == old(messages) && nextRowId == old(nextRowId) && published == old(published)
    {
      AfterMessageKeepsConsistent(users, conversations, participants, messages, nextRowId, m, rowId);
      conversations := SetLatest(conversations, m.conversationId, m.id);
      participants := AfterMessage(participants, m.conversationId, rowId, m.senderId);
    }

    /** `prisma.conversationParticipant.update` setting `hasSeenLatestMessage`. */
    method MarkRowSeen(rowId: nat)
      requires Valid()
      modifies this
      ensures Valid()
      ensures participants == SetSeen(old(participants), rowId)
      ensures users == old(users) && conversations == old(conversations) && messages == old(messages)
      ensures nextRowId == old(nextRowId) && published == old(published)
    {
      SetSeenKeepsConsistent(users, conversations, participants, messages, nextRowId, rowId);
      participants := SetSeen(participants, rowId);
    }

    /** `prisma.user.update` of the username: fails when no user has that id or the
        name belongs to another user. */
    method UpdateUsername(userId: Id, username: string) returns (ok: bool)
      requires Valid()
      modifies this
      ensures Valid()
      ensures ok <==> HasUser(old(users), userId) && forall u :: u in old(users) && u.username == username ==> u.id == userId
      ensures !ok ==> unchanged(this)
      ensures ok ==> users == SetUsername(old(users), userId, username)
      ensures conversations == old(conversations) && participants == old(participants) && messages == old(messages)
      ensures nextRowId == old(nextRowId) && published == old(published)
    {
      ok := HasUser(users, userId) && forall u :: u in users && u.username == username ==> u.id == userId;
      if ok {
        if UsernameTaken(users, username) {
          // the name is already the user's own: the update leaves the table as it is
          SameUsernameIsNoChange(users, userId, username);
        } else {
          SetUsernameKeepsConsistent(users, conversations, participants, messages, nextRowId, userId, username);
          users := SetUsername(users, userId, username);
        }
      }
    }

    /** `pubsub.publish`: the payload is appended to the log. */
    method Publish(e: Event)
      modifies this
      ensures published == old(published) + [e]
      ensures users == old(users) && conversations == old(conversations) && participants == old(participants)
      ensures messages == old(messages) && nextRowId == old(nextRowId)
    {
      published := published + [e];
    }
  }

  lemma SameUsernameIsNoChange(users: seq<User>, userId: Id, username: string)
    requires UsersConsistent(users)
    requires UsernameTaken(users, username)
    requires forall u :: u in users && u.username == username ==> u.id == userId
    ensures SetUsername(users, userId, username) == users
  {
    var u :| u in users && u.username == username;
    var k :| 0 <= k < |users| && users[k] == u;
    forall i | 0 <= i < |users| ensures SetUsername(users, userId, username)[i] == users[i] {
      if users[i].id == userId && i != k {
        assert users[i].id == users[k].id;
      }
    }
  }
}
