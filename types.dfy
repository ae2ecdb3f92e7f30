/** Values shared by the resolvers: the session types of the server, the store's
    rows, the populated shapes the resolvers return, the events they publish and
    the messages of the errors they throw. */
module Types {

  type Id = string

  datatype Option<+T> = None | Some(value: T)

  /** What a resolver either returns or throws; `Err` carries the thrown Error's message. */
  datatype Result<+T> = Ok(value: T) | Err(message: string)

  /** The signed-in user carried by a session (src/util/types.ts:17-24). */
  datatype User = User(id: Id, username: string, email: string, emailVerified: bool, image: string, name: string)

  /** A session whose `user` may be absent (src/util/types.ts:12-15). */
  datatype Session = Session(user: Option<User>, expires: string)

  /** The result object of createUsername; both fields optional (src/util/types.ts:26-29). */
  datatype CreateUsernameResponse = CreateUsernameResponse(success: Option<bool>, error: Option<string>)

  /** A conversation row: its id and the id of its latest message, if any. */
  datatype Conversation = Conversation(id: Id, latestMessageId: Option<Id>)

  /** A participant row: links one user to one conversation and keeps that user's read state. */
  datatype Participant = Participant(id: nat, conversationId: Id, userId: Id, hasSeenLatestMessage: bool)

  /** A message row. */
  datatype Message = Message(id: Id, conversationId: Id, senderId: Id, body: string, createdAt: int)

  /** A conversation read together with its participant rows and its latest message. */
  datatype ConversationView = ConversationView(conversation: Conversation, participants: seq<Participant>, latestMessage: Option<Message>)

  /** One entry of the data given to the store when a conversation's participant rows are created. */
  datatype RowData = RowData(userId: Id, hasSeenLatestMessage: bool)

  /** One parsed entry of createConversation's `participantIds` argument (a user record). */
  datatype ParticipantInput = ParticipantInput(id: Id, username: string)

  /** A payload published on the bus, one constructor per topic. */
  datatype Event =
    | ConversationCreated(created: ConversationView)    // topic CONVERSATION_CREATED
    | ConversationUpdated(updated: ConversationView)    // topic CONVERSATION_UPDATED
    | MessageSent(message: Message)                     // topic MESSAGE_SENT

  // Messages thrown (or returned) by the resolvers.
  const NotAuthorized := "Not Authorized"               // conversation and message resolvers
  const NotAuthorizedUser := "Not authorized"           // user resolvers
  const ConversationNotFound := "Conversation not found!"
  const CreateConversationError := "createConversation error"
  const SendMessageError := "sendMessage Error"
  const UserAlreadyExists := "User already exists"
  /** What JavaScript throws when `session.user` is read on an absent session. */
  const SessionUndefined := "Cannot read properties of undefined (reading 'user')"
  /** Stand-in for the store's error when an update finds no row to update; the
      store's own message also reports the failing invocation. */
  const RecordNotFound := "Record to update not found."
  /** Stand-in for the store's error when an update by id is given no id. */
  const MissingWhereId := "Argument where of type ConversationParticipantWhereUniqueInput needs at least one argument."

  /** True when the session carries a user. */
  predicate SignedIn(session: Option<Session>)
  {
    session.Some? && session.value.user.Some?
  }
}
