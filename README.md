# Messenger server resolvers: a verified model

This project models the authorization and read-state logic of the GraphQL
resolvers of a messaging server. The server answers three queries
(`conversations`, `messages`, `searchUsers`) and four mutations
(`createConversation`, `markConversationAsRead`, `sendMessage`,
`createUsername`). It also filters three subscriptions
(`conversationCreated`, `conversationUpdated`, `messageSent`).

- The relational store is the class `Db.Store`. It has one field per table
  the resolvers use: users, conversations, participant rows and messages.
  A counter gives participant rows their ids. A log field holds every event
  published on the bus, oldest first.
- The store's constraints are the ghost predicate `Valid`, and every write
  preserves them. They are: unique ids and usernames, one participant row
  per (conversation, user), no row or message outside a stored conversation,
  and a latest message that belongs to its conversation.
- Each resolver is a module-level method that `modifies` the store, or a
  function that `reads` it. Each subscription filter is a pure function of
  the payload and the subscriber's arguments.
- A thrown error is `Err(message)`, with the message string the code throws:
  "Not Authorized" in the conversation and message resolvers, and
  "Not authorized" in the user resolvers. `createUsername` returns its
  errors as a `{success, error}` value instead.
- The compiled `dist/` resolvers are the primary model. The TypeScript
  sources under `src/` are older in two places, and each is modelled as its
  own member:
  - `createConversation` takes raw ids and publishes nothing
    (`CreateConversationWrites`).
  - `sendMessage` publishes nothing (`SendMessageWrites`).
  The dist methods call these members and add the publishes.
- The `src/` `createUsername` is the same code as the dist one, so
  `UserResolvers.CreateUsername` models both.

Three behaviours of the code that the model keeps as they are:

- `markConversationAsRead` does not check that `userId` is the caller. Any
  signed-in user can mark any user's row as read.
- When `markConversationAsRead` finds no row, the update by an undefined id
  fails, and the store's own error message is rethrown, not a fixed one.
- `sendMessage` checks membership only through the sender's participant row.
  When that row is missing, the message row has already been created and
  stays in the store.

Files:

- `types.dfy`: the values.
- `functions.dfy`: the membership test.
- `store.dfy`: the tables and their writes.
- `conversation.dfy`, `message.dfy`, `user.dfy`: the resolvers of each
  GraphQL module.

## Model

| member | source | states |
|---|---|---|
| Membership.Find | src/util/functions.ts:7 | None exactly when no participant has the user id; otherwise the first participant with that id, as `Array.prototype.find` returns it |
| Membership.IsParticipant | src/util/functions.ts:3-8 | true exactly when some participant row carries the user id; never true for an empty list |
| Membership.OrderIrrelevant | src/util/functions.ts:3-8 | the membership answer depends only on the multiset of rows, not on their order |
| Membership.AppendKeepsMember | src/util/functions.ts:3-8 | adding participants never revokes an existing member's access |
| Db.RowsOf | dist/graphql/resolvers/conversation.js:131-134 | the rows a populated conversation carries are exactly the stored rows of that conversation |
| Db.RowsOfConcat | dist/graphql/resolvers/conversation.js:131-134 | selecting a conversation's rows keeps the store's order (distributes over concatenation) |
| Db.MessagesOf | dist/graphql/resolvers/message.js:30-34 | `findMany({where: {conversationId}})`: exactly the stored messages of that conversation |
| Db.FindRow | dist/graphql/resolvers/conversation.js:68-73 | `findFirst` on (userId, conversationId): a stored row with both keys, or None exactly when no row has both |
| Db.FindConversation | dist/graphql/resolvers/message.js:17-22 | a stored conversation with the id, or None exactly when there is none |
| Db.Populated | dist/graphql/resolvers/conversation.js:131-146 | `include: conversationPopulated`: the view carries the conversation itself, exactly its stored rows, and a latest message exactly when the conversation names one that is stored, with that id |
| Db.FindMessage | dist/graphql/resolvers/conversation.js:135-145 | a stored message with the id, or None exactly when there is none |
| Db.InsertConversationKeepsConsistent | dist/graphql/resolvers/conversation.js:37-50 | creating a conversation with fresh row ids and distinct users keeps every store constraint |
| Db.InsertMessageKeepsConsistent | dist/graphql/resolvers/message.js:58-67 | creating a message with a fresh id in an existing conversation keeps every store constraint |
| Db.SetSeenKeepsConsistent | dist/graphql/resolvers/conversation.js:75-82 | marking a row read keeps every store constraint |
| Db.AfterMessageKeepsConsistent | dist/graphql/resolvers/message.js:79-107 | pointing the conversation at its new message and flipping read state keeps every store constraint |
| Db.SetLatestKeepsIds | dist/graphql/resolvers/message.js:79-84 | updating `latestMessageId` keeps the set of conversation ids: an id is present afterwards exactly when it was before |
| Db.SetUsernameKeepsConsistent | dist/graphql/resolvers/user.js:48-55 | setting a username no one has keeps ids and usernames unique |
| Db.SameUsernameIsNoChange | dist/graphql/resolvers/user.js:48-55 | setting a user's username to the one they already have leaves the table as it is |
| Db.Store.InsertConversation | dist/graphql/resolvers/conversation.js:37-50 | the conversation and all its rows are created together, or nothing is; fails exactly on a taken id or a user listed twice |
| Db.Store.InsertMessage | dist/graphql/resolvers/message.js:58-67 | the message is appended; fails, writing nothing, exactly on a taken id or a missing conversation |
| Db.Store.UpdateAfterMessage | dist/graphql/resolvers/message.js:79-107 | given the sender's own row in the message's conversation, the tables become `SetLatest` and `AfterMessage` of the old ones: the latest message is the new one, and (by `MessageResolvers.AfterMessageReadState`) the sender's row is read and the other rows of the conversation unread |
| Db.Store.MarkRowSeen | dist/graphql/resolvers/conversation.js:75-82 | the row with that id is marked read and nothing else changes |
| Db.Store.UpdateUsername | dist/graphql/resolvers/user.js:48-55 | succeeds exactly when the user exists and no other user has the name; then only that user's username changes |
| Db.Store.Publish | dist/graphql/resolvers/conversation.js:51-53 | the payload is appended to the log of published events |
| ConversationResolvers.Visible | dist/graphql/resolvers/conversation.js:16-20 | the returned conversations are populated stored conversations in which the user has a row, and every such conversation is returned |
| ConversationResolvers.VisibleConcat | dist/graphql/resolvers/conversation.js:16-20 | filtering keeps the store's order of conversations |
| ConversationResolvers.Conversations | dist/graphql/resolvers/conversation.js:9-26 | refused exactly when no user is signed in; otherwise a stored conversation is returned exactly when the caller has a participant row in it |
| ConversationResolvers.SeededRows | dist/graphql/resolvers/conversation.js:41-45 | one row per listed id, in order, in the new conversation; a row has seen the latest message exactly when its id is the caller's; the members are exactly the listed ids |
| ConversationResolvers.CreatedRows | dist/graphql/resolvers/conversation.js:37-50 | after the create, the rows of the new conversation are exactly the rows just made |
| ConversationResolvers.CreateConversationWrites | src/graphql/resolvers/conversation.ts:5-37 | refused without a user; on a store failure "createConversation error" with nothing written; otherwise the new conversation and its rows, and its id returned |
| ConversationResolvers.CreateConversation | dist/graphql/resolvers/conversation.js:29-60 | the same writes, then exactly one CONVERSATION_CREATED event carrying the new conversation with its rows; nothing is published on failure |
| ConversationResolvers.MarkRead | dist/graphql/resolvers/conversation.js:68-82 | the findFirst-then-update pair: no row changes its id, user or conversation, and when the (userId, conversationId) row exists a row with those keys ends up read |
| ConversationResolvers.MarkReadKeepsRow | dist/graphql/resolvers/conversation.js:68-83 | a second call on the same (userId, conversationId) finds its row exactly when the first did, so a redundant call returns true again |
| ConversationResolvers.MarkReadEffect | dist/graphql/resolvers/conversation.js:68-83 | only the (userId, conversationId) row changes, and it ends up read |
| ConversationResolvers.MarkReadIdempotent | dist/graphql/resolvers/conversation.js:75-82 | marking a conversation read twice gives the same rows as marking it once |
| ConversationResolvers.FindRowSameKeys | dist/graphql/resolvers/conversation.js:68-73 | the row lookup depends only on row ids, user ids and conversation ids, not on read state |
| ConversationResolvers.MarkConversationAsRead | dist/graphql/resolvers/conversation.js:61-89 | refused without a user; fails when no (userId, conversationId) row exists; otherwise marks that row read and returns true; never publishes |
| ConversationResolvers.ConversationCreatedFilter | dist/graphql/resolvers/conversation.js:96-103 | throws exactly for a subscriber without a user; otherwise delivers exactly when the subscriber is a participant of the created conversation |
| ConversationResolvers.ConversationUpdatedFilter | dist/graphql/resolvers/conversation.js:109-118 | throws exactly for a subscriber without a user; otherwise delivers exactly when the subscriber is a participant of the updated conversation |
| ConversationResolvers.CreatedEventAudience | dist/graphql/resolvers/conversation.js:96-103 | the event createConversation publishes reaches a signed-in subscriber exactly when the subscriber's id was among the listed participants |
| MessageResolvers.InsertByDate | dist/graphql/resolvers/message.js:35-37 | inserting a message into a newest-first list keeps it newest first and adds exactly that message |
| MessageResolvers.SortNewestFirst | dist/graphql/resolvers/message.js:30-38 | `orderBy: {createdAt: "desc"}`: newest first and a permutation of its input |
| MessageResolvers.Messages | dist/graphql/resolvers/message.js:10-45 | checks in order: session, user, conversation exists, caller has a row; then exactly the conversation's messages, newest first |
| MessageResolvers.SendMessageWrites | src/graphql/resolvers/message.ts:7-81 | refused unless the caller is signed in as the sender; store failures give "sendMessage Error"; without the sender's row the message stays created; otherwise the latest message and read state are updated and true is returned |
| MessageResolvers.SendMessage | dist/graphql/resolvers/message.js:48-120 | the same writes; on success MESSAGE_SENT then CONVERSATION_UPDATED, both after every write, the latter with the updated conversation; nothing is published on failure |
| MessageResolvers.AfterMessageReadState | dist/graphql/resolvers/message.js:79-107 | after a send, in that conversation exactly the sender's row has seen the latest message; rows of other conversations are untouched; no row changes its keys |
| MessageResolvers.UpdatedLatestMessage | dist/graphql/resolvers/message.js:79-84 | the conversation published after a send has the new message as its latest message |
| MessageResolvers.FindAppended | dist/graphql/resolvers/conversation.js:135-145 | a message appended with a fresh id is the one its id finds |
| MessageResolvers.UpdatedEventAudience | dist/graphql/resolvers/message.js:109-113 | CONVERSATION_UPDATED after a send reaches a signed-in subscriber exactly when the subscriber had a row in the conversation: the read-state flip changes no membership |
| MessageResolvers.FlipKeepsMembers | dist/graphql/resolvers/message.js:85-103 | the nested `update` and `updateMany` change only read state: a user has a row in the conversation afterwards exactly when they had one before |
| MessageResolvers.MessageSentFilter | dist/graphql/resolvers/message.js:128-131 | delivers exactly the messages of the subscribed conversation, with no session check |
| UserResolvers.Matching | dist/graphql/resolvers/user.js:10-18 | exactly the stored users whose username contains the search text and differs from the caller's, both ignoring case |
| UserResolvers.SearchUsers | dist/graphql/resolvers/user.js:3-25 | refused with "Not authorized" exactly when no user is signed in; otherwise exactly the matching users, never one named like the caller |
| UserResolvers.SearchIgnoresCase | dist/graphql/resolvers/user.js:12-15 | two search texts equal up to case find the same users in the same order |
| UserResolvers.EmptySearchFindsOthers | dist/graphql/resolvers/user.js:12-15 | an empty search text finds every user except those named like the caller |
| UserResolvers.CreateUsername | dist/graphql/resolvers/user.js:28-64 | each failure is returned as `{error}` and writes nothing: not signed in, a username any user already has (the caller included), or a missing user record; otherwise `{success: true}` and only the caller's username changes |
| UserResolvers.UsernameChange | dist/graphql/resolvers/user.js:48-56 | after a successful rename only the caller has the new username, so the same request is refused next time; others are untouched; the caller's old username is free again |

## Left out

- JSON parsing of `participantIds` in the dist `createConversation` is not
  modelled. The model takes the records already parsed, so the parse failure
  that would come before the authorization check is not modelled.
- `imageUrl` is not modelled, and no check reads it. A participant row's
  image comes from the parsed participant record (`p.image`). A message's
  image comes from the caller's session (`session.user.image`).
- Populated projections are reduced to the conversation's rows and its
  latest message. The nested `user` and `sender` selections are left out,
  and `searchUsers` returns whole user records instead of the
  (id, username, image) projection.
- Timestamps are not generated by the store. `createdAt` is an input of
  `sendMessage`, and the ordering of `messages` relies on it.
- Fresh ids: the conversation id is an input. A taken id is one of the
  modelled store failures.
- Logging (`console.log`) is not modelled: it has no effect on state or
  results.
- The bus is the log of published payloads. Delivery, `asyncIterator`,
  `withFilter` and concurrency between resolvers are not modelled. Each
  filter is a function of one payload and one subscriber's arguments.
- Failures of read queries (`findMany`, `findUnique`, `findFirst`) are not
  modelled: they are the store's own I/O errors.
- The texts of store errors are stand-ins. `RecordNotFound` (the update of
  a missing user) and `MissingWhereId` (the update by an undefined id) name
  the failure, but the store's real message has more text, such as the
  invocation it reports, and nothing in this code fixes it.
- UserResolvers.Matching: case folding is ASCII only, and `contains` is
  plain substring search (no SQL `LIKE` wildcards). The database collation's
  full Unicode case folding is not modelled.
- Null usernames and absent search text are not modelled. Usernames and the
  search text are plain strings, so the store's NULL handling in `contains`
  and `not` is not modelled.
- MessageResolvers.Messages: for an absent session the error text is the
  TypeError for `undefined`. A `null` session fails the same way, with
  "null" in the text.
- MessageResolvers.SendMessageWrites: the same absent-session error text as
  `Messages`.
- MessageResolvers.SendMessage: the same absent-session error text as
  `Messages`.
- `deleteConversation`, `leaveConversation` and `conversationDeleted` do
  not appear in the resolvers of this model. The repository's resolver
  files define no such operations.
- The unique (conversation, user) constraint on participant rows and the
  foreign keys from rows and messages to conversations come from the
  database schema. The schema file is not part of this model, so they are
  stated as the store invariant `Db.Consistent`.
- `searchUsers` in the `src/` tree is absent: that file defines an empty
  `Query`. The dist version is the one modelled.
