/**
 * `ChatViewSet`: the chats a user may see, one chat by id, chat creation,
 * the message list and message posting of a chat (`handle_messages`), and
 * reading, deleting and editing one message of a chat (`manage_message`).
 * Reads are functions of the tables; requests that write are methods on the
 * database and answer a status code with the result.
 */
module Views {
  import opened Wrappers
  import opened Text
  import opened Querysets
  import opened Models
  import opened Store
  import opened Responses
  import opened Filters
  import opened Serializers

  /** `ChatViewSet.get_queryset`: the chats where the requester is sender or recipient. */
  function GetQueryset(t: Tables, user: UserId): (r: seq<Chat>)
    requires t.Valid()
    ensures forall c :: c in r <==> c in t.chats.Values && IsParticipant(c, user)
    ensures ChatsNewestFirst(r)
    ensures IsSubsequence(r, t.AllChats())
  {
    var p := (c: Chat) => IsParticipant(c, user);
    KeepMembers(t.AllChats(), p);
    KeepKeepsOrder(t.AllChats(), p, ChatCreated);
    KeepIsSubsequence(t.AllChats(), p);
    Keep(t.AllChats(), p)
  }

  /** `filter_queryset(get_queryset())`: the chat list, narrowed by `ChatFilter`. */
  function ListChats(t: Tables, user: UserId, params: ChatFilterParams): (r: seq<Chat>)
    requires t.Valid()
    ensures forall c :: c in r <==>
      c in t.chats.Values && IsParticipant(c, user) && PassesChatFilter(t.users, c, params)
    ensures ChatsNewestFirst(r)
    ensures params == NoChatFilter ==> r == GetQueryset(t, user)
  {
    var r := ApplyChatFilter(t.users, GetQueryset(t, user), params);
    SubsequenceKeepsOrder(r, GetQueryset(t, user), ChatCreated);
    r
  }

  /** The row with primary key `pk` in a queryset. */
  function FindById(s: seq<Chat>, pk: ChatId): (r: Option<Chat>)
    ensures r.Some? ==> r.value in s && r.value.id == pk
    ensures r.None? ==> forall c :: c in s ==> c.id != pk
  {
    if s == [] then None
    else if s[0].id == pk then Some(s[0])
    else FindById(s[1..], pk)
  }

  /**
   * `ChatViewSet.get_object`: the chat `pk` looked up in the filtered
   * queryset, then the participant check. The queryset already holds only
   * the requester's chats, so a stranger gets not found, never permission denied.
   */
  function GetObject(t: Tables, user: UserId, pk: ChatId, params: ChatFilterParams): (r: Result<Chat, Error>)
    requires t.Valid()
    ensures r.Success? <==>
      pk in t.chats && IsParticipant(t.chats[pk], user) && PassesChatFilter(t.users, t.chats[pk], params)
    ensures r.Success? ==> r.value == t.chats[pk]
    ensures r.Failure? ==> r.error == NotFound
  {
    match FindById(ListChats(t, user, params), pk)
    case None => Failure(NotFound)
    case Some(c) =>
      if user != c.sender && user != c.recipient then Failure(PermissionDenied) else Success(c)
  }

  /** `retrieve`: the chat rendered by `ChatSerializer`, with its message count. */
  function Retrieve(t: Tables, user: UserId, pk: ChatId, params: ChatFilterParams): (r: Result<ChatView, Error>)
    requires t.Valid()
    ensures r.Success? <==> GetObject(t, user, pk, params).Success?
    ensures r.Success? ==> r.value.id == pk && r.value.messagesCount == |MessageIdsOf(t.messages, pk)|
    ensures r.Success? ==>
      && r.value.sender == t.users[t.chats[pk].sender] && r.value.recipient == t.users[t.chats[pk].recipient]
      && r.value.createdAt == t.chats[pk].createdAt
    ensures r.Failure? ==> r.error == NotFound
  {
    match GetObject(t, user, pk, params)
    case Failure(e) => Failure(e)
    case Success(c) => Success(RepresentChat(t, c))
  }

  /** `Message.objects.filter(chat=chat)`: the messages of one chat, newest first. */
  function ChatMessages(t: Tables, chat: ChatId): (r: seq<Message>)
    requires t.Valid()
    ensures forall m :: m in r <==> m in t.messages.Values && m.chat == chat
    ensures MessagesNewestFirst(r)
  {
    var inChat := (m: Message) => m.chat == chat;
    KeepMembers(t.AllMessages(), inChat);
    KeepKeepsOrder(t.AllMessages(), inChat, MessageSent);
    Keep(t.AllMessages(), inChat)
  }

  /** `author__username=value`: an exact, case-sensitive match on the author's username. */
  predicate AuthorIs(users: map<UserId, User>, m: Message, username: string) {
    m.author in users && users[m.author].username == username
  }

  /**
   * The message queryset of `handle_messages`: the chat's messages, then
   * `text__icontains` if `text` is given, then the exact author username if
   * `author` is given.
   */
  function MessagesQuery(t: Tables, chat: ChatId, text: Option<string>, author: Option<string>): (r: seq<Message>)
    requires t.Valid()
    ensures forall m :: m in r <==>
      && m in t.messages.Values && m.chat == chat
      && (Given(text) ==> IContains(m.text, text.value))
      && (Given(author) ==> AuthorIs(t.users, m, author.value))
    ensures MessagesNewestFirst(r)
    ensures IsSubsequence(r, ChatMessages(t, chat))
    ensures !Given(text) && !Given(author) ==> r == ChatMessages(t, chat)
  {
    var all := ChatMessages(t, chat);
    var afterText := KeepIf(all, Given(text), (m: Message) => Given(text) ==> IContains(m.text, text.value));
    var afterAuthor := KeepIf(afterText, Given(author), (m: Message) => Given(author) ==> AuthorIs(t.users, m, author.value));
    IsSubsequenceTransitive(afterAuthor, afterText, all);
    SubsequenceKeepsOrder(afterAuthor, all, MessageSent);
    afterAuthor
  }

  /** `handle_messages`, GET: the chat's messages as filtered by `text` and `author`. */
  function ListMessages(
    t: Tables, user: UserId, pk: ChatId, params: ChatFilterParams,
    text: Option<string>, author: Option<string>): (r: Result<seq<Message>, Error>)
    requires t.Valid()
    ensures r.Success? <==> GetObject(t, user, pk, params).Success?
    ensures r.Failure? ==> r.error == NotFound
    ensures r.Success? ==> forall m :: m in r.value <==>
      && m in t.messages.Values && m.chat == pk
      && (Given(text) ==> IContains(m.text, text.value))
      && (Given(author) ==> AuthorIs(t.users, m, author.value))
    ensures r.Success? ==> MessagesNewestFirst(r.value)
  {
    match GetObject(t, user, pk, params)
    case Failure(e) => Failure(e)
    case Success(chat) => Success(MessagesQuery(t, chat.id, text, author))
  }

  /**
   * `get_object_or_404(Message, chat=chat, id=message_id)` after `get_object`:
   * a message is found only through the chat it belongs to.
   */
  function GetMessage(t: Tables, user: UserId, pk: ChatId, params: ChatFilterParams, messageId: MessageId): (r: Result<Message, Error>)
    requires t.Valid()
    ensures r.Success? <==>
      GetObject(t, user, pk, params).Success? && messageId in t.messages && t.messages[messageId].chat == pk
    ensures r.Success? ==> r.value == t.messages[messageId]
    ensures r.Failure? ==> r.error == NotFound
  {
    match GetObject(t, user, pk, params)
    case Failure(e) => Failure(e)
    case Success(chat) =>
      if messageId in t.messages && t.messages[messageId].chat == chat.id then Success(t.messages[messageId])
      else Failure(NotFound)
  }

  /** A posted message heads its chat's listing; the messages listed before follow it. */
  lemma ChatMessagesAfterPost(t: Tables, chat: ChatId, author: UserId, text: string)
    requires t.Valid() && chat in t.chats && author in t.users
    ensures AddMessage(t, chat, author, text).Valid()
    ensures ChatMessages(AddMessage(t, chat, author, text), chat) == [NextMessage(t, chat, author, text)] + ChatMessages(t, chat)
  {
    AddMessageKeepsValid(t, chat, author, text);
    AddMessageHeadsListing(t, chat, author, text);
    KeepPrepend(NextMessage(t, chat, author, text), t.AllMessages(), (m: Message) => m.chat == chat);
  }

  /** A brand-new chat has no messages yet. */
  lemma NewChatHasNoMessages(t: Tables, sender: UserId, recipient: UserId)
    requires t.Valid() && sender in t.users && recipient in t.users
    ensures AddChat(t, sender, recipient).Valid()
    ensures MessagesCount(AddChat(t, sender, recipient), t.nextChatId) == 0
    ensures ChatMessages(AddChat(t, sender, recipient), t.nextChatId) == []
  {
    AddChatKeepsValid(t, sender, recipient);
    assert MessageIdsOf(t.messages, t.nextChatId) == {};
    var all := AddChat(t, sender, recipient).AllMessages();
    forall i | 0 <= i < |all| ensures all[i].chat != t.nextChatId {
      assert all[i] in t.messages.Values;
    }
    KeepNothing(all, (m: Message) => m.chat == t.nextChatId);
  }

  /** Without filters, a participant's message listing is the chat's whole message queryset. */
  lemma UnfilteredListing(t: Tables, user: UserId, pk: ChatId)
    requires t.Valid() && pk in t.chats && IsParticipant(t.chats[pk], user)
    ensures ListMessages(t, user, pk, NoChatFilter, None, None) == Success(ChatMessages(t, pk))
  {
  }

  /** A message just posted to a chat heads every participant's unfiltered listing of it. */
  lemma ListingAfterPost(t: Tables, pk: ChatId, user: UserId, author: UserId, text: string)
    requires t.Valid() && pk in t.chats && IsParticipant(t.chats[pk], user) && author in t.users
    ensures AddMessage(t, pk, author, text).Valid()
    ensures ListMessages(AddMessage(t, pk, author, text), user, pk, NoChatFilter, None, None)
      == Success([NextMessage(t, pk, author, text)] + ChatMessages(t, pk))
  {
    ChatMessagesAfterPost(t, pk, author, text);
    UnfilteredListing(AddMessage(t, pk, author, text), user, pk);
  }

  /** `ChatViewSet.create`: validate with `ChatCreateSerializer`, insert, answer 201 with the rendered chat. */
  method Create(db: Database, user: UserId, data: ChatCreateData) returns (status: int, r: Result<ChatView, Error>)
    requires db.Valid() && user in db.tables.users
    modifies db
    ensures db.Valid()
    ensures r.Success? <==> ValidateChat(old(db.tables.users), user, data).Success?
    ensures r.Failure? ==> status == HTTP_400_BAD_REQUEST && r.error.ValidationError? && db.tables == old(db.tables)
    ensures r.Success? ==>
      && status == HTTP_201_CREATED
      && db.tables == AddChat(old(db.tables), user, data.recipient.value)
      && r.value.id == old(db.tables.nextChatId) && r.value.id !in old(db.tables.chats)
      && r.value.sender == db.tables.users[user] && r.value.recipient == db.tables.users[data.recipient.value]
      && r.value.createdAt == old(db.tables.clock) && r.value.messagesCount == 0
  {
    match ValidateChat(db.tables.users, user, data)
    case Failure(e) =>
      return StatusOf(e), Failure(e);
    case Success(draft) =>
      NewChatHasNoMessages(db.tables, draft.sender, draft.recipient);
      var c := CreateChat(db, draft);
      return HTTP_201_CREATED, Success(RepresentChat(db.tables, c));
  }

  /**
   * `handle_messages`, POST: find the chat, validate the body, then create the
   * message in that chat with the requester as author, and its images.
   */
  method PostMessage(
    db: Database, user: UserId, pk: ChatId, params: ChatFilterParams,
    data: MessageData, images: seq<ImageData>, failAt: Option<nat>)
    returns (status: int, r: Result<Message, Error>)
    requires db.Valid() && user in db.tables.users
    modifies db
    ensures db.Valid()
    ensures GetObject(old(db.tables), user, pk, params).Failure? ==>
      status == HTTP_404_NOT_FOUND && r == Failure(NotFound) && db.tables == old(db.tables)
    ensures GetObject(old(db.tables), user, pk, params).Success? && ValidateMessage(old(db.tables.users), data, false).Failure? ==>
      status == HTTP_400_BAD_REQUEST && r.Failure? && r.error.ValidationError? && db.tables == old(db.tables)
    ensures r.Success? ==>
      && status == HTTP_201_CREATED
      && r.value == NextMessage(old(db.tables), pk, user, data.text.value)
      && db.tables == WithImages(AddMessage(old(db.tables), pk, user, data.text.value), r.value.id, images)
    ensures r.Success? <==>
      && GetObject(old(db.tables), user, pk, params).Success?
      && ValidateMessage(old(db.tables.users), data, false).Success?
      && (failAt.None? || failAt.value >= |images|)
    ensures
      && GetObject(old(db.tables), user, pk, params).Success?
      && ValidateMessage(old(db.tables.users), data, false).Success?
      && failAt.Some? && failAt.value < |images| ==>
      && status == HTTP_500_INTERNAL_SERVER_ERROR && r == Failure(ServerError)
      && db.tables.messages == old(db.tables.messages) && db.tables.images == old(db.tables.images)
      && db.tables.users == old(db.tables.users) && db.tables.chats == old(db.tables.chats)
  {
    var chat := GetObject(db.tables, user, pk, params);
    if chat.Failure? {
      return StatusOf(chat.error), Failure(chat.error);
    }
    var valid := ValidateMessage(db.tables.users, data, false);
    if valid.Failure? {
      return StatusOf(valid.error), Failure(valid.error);
    }
    r := CreateMessage(db, user, Some(chat.value.id), valid.value.text.value, images, failAt);
    status := if r.Success? then HTTP_201_CREATED else StatusOf(r.error);
  }

  /** `manage_message`, DELETE: only the author may delete; the message's images go with it. */
  method DeleteMessage(db: Database, user: UserId, pk: ChatId, params: ChatFilterParams, messageId: MessageId)
    returns (status: int, r: Result<(), Error>)
    requires db.Valid()
    modifies db
    ensures db.Valid()
    ensures GetMessage(old(db.tables), user, pk, params, messageId).Failure? ==>
      status == HTTP_404_NOT_FOUND && r == Failure(NotFound) && db.tables == old(db.tables)
    ensures GetMessage(old(db.tables), user, pk, params, messageId).Success? &&
            old(db.tables.messages[messageId].author) != user ==>
      status == HTTP_403_FORBIDDEN && r == Failure(Forbidden) && db.tables == old(db.tables)
    ensures r.Success? <==>
      GetMessage(old(db.tables), user, pk, params, messageId).Success? && old(db.tables.messages[messageId].author) == user
    ensures r.Success? ==> status == HTTP_204_NO_CONTENT && db.tables == RemoveMessage(old(db.tables), messageId)
  {
    var message := GetMessage(db.tables, user, pk, params, messageId);
    if message.Failure? {
      return StatusOf(message.error), Failure(message.error);
    }
    if message.value.author != user {
      return HTTP_403_FORBIDDEN, Failure(Forbidden);
    }
    db.DeleteMessage(messageId);
    return HTTP_204_NO_CONTENT, Success(());
  }

  /**
   * `manage_message`, PUT (`partial` false) and PATCH (`partial` true): only
   * the author may edit; the validated fields replace the stored ones.
   */
  method UpdateMessage(
    db: Database, user: UserId, pk: ChatId, params: ChatFilterParams, messageId: MessageId,
    data: MessageData, partial: bool)
    returns (status: int, r: Result<Message, Error>)
    requires db.Valid()
    modifies db
    ensures db.Valid()
    ensures GetMessage(old(db.tables), user, pk, params, messageId).Failure? ==>
      status == HTTP_404_NOT_FOUND && r == Failure(NotFound) && db.tables == old(db.tables)
    ensures GetMessage(old(db.tables), user, pk, params, messageId).Success? &&
            old(db.tables.messages[messageId].author) != user ==>
      status == HTTP_403_FORBIDDEN && r == Failure(Forbidden) && db.tables == old(db.tables)
    ensures GetMessage(old(db.tables), user, pk, params, messageId).Success? &&
            old(db.tables.messages[messageId].author) == user &&
            ValidateMessage(old(db.tables.users), data, partial).Failure? ==>
      status == HTTP_400_BAD_REQUEST && r.Failure? && r.error.ValidationError? && db.tables == old(db.tables)
    ensures r.Failure? ==> db.tables == old(db.tables) && status == StatusOf(r.error)
    ensures r.Success? <==>
      && GetMessage(old(db.tables), user, pk, params, messageId).Success?
      && old(db.tables.messages[messageId].author) == user
      && ValidateMessage(old(db.tables.users), data, partial).Success?
    ensures r.Success? ==>
      && status == HTTP_200_OK
      && r.value == ApplyUpdate(old(db.tables.messages[messageId]), data)
      && db.tables == SaveMessage(old(db.tables), r.value)
  {
    var message := GetMessage(db.tables, user, pk, params, messageId);
    if message.Failure? {
      return StatusOf(message.error), Failure(message.error);
    }
    if message.value.author != user {
      return HTTP_403_FORBIDDEN, Failure(Forbidden);
    }
    var valid := ValidateMessage(db.tables.users, data, partial);
    if valid.Failure? {
      return StatusOf(valid.error), Failure(valid.error);
    }
    var updated := ApplyUpdate(message.value, valid.value);
    db.Save(updated);
    return HTTP_200_OK, Success(updated);
  }
}
