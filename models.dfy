/**
 * The records of the messenger application: users (only the fields the chat
 * core reads), chats, messages and their images, with the default orderings
 * declared on the models.
 */
module Models {
  import opened Querysets

  type UserId = nat
  type ChatId = nat
  type MessageId = nat
  type ImageId = nat

  /** Timestamps come from one clock that strictly increases with every insertion. */
  type Timestamp = nat

  /** The bytes of an uploaded picture; decoding and file storage are outside the model. */
  type ImageData = seq<bv8>

  datatype User = User(id: UserId, username: string, firstName: string, lastName: string)

  datatype Chat = Chat(id: ChatId, sender: UserId, recipient: UserId, createdAt: Timestamp)

  datatype Message = Message(
    id: MessageId,
    chat: ChatId,
    author: UserId,
    text: string,
    dateSent: Timestamp,
    isRead: bool,
    likes: set<UserId>,
    dislikes: set<UserId>)

  datatype Image = Image(id: ImageId, message: MessageId, image: ImageData)

  predicate IsParticipant(c: Chat, u: UserId) {
    c.sender == u || c.recipient == u
  }

  function ChatCreated(c: Chat): int {
    c.createdAt
  }

  function MessageSent(m: Message): int {
    m.dateSent
  }

  /** `Chat.Meta.ordering = ('-created_at',)`. */
  ghost predicate ChatsNewestFirst(s: seq<Chat>) {
    StrictlyDescending(s, ChatCreated)
  }

  /** `Message.Meta.ordering = ('-date_sent',)`. */
  ghost predicate MessagesNewestFirst(s: seq<Message>) {
    StrictlyDescending(s, MessageSent)
  }
}
