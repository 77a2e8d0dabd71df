/**
 * The database behind the messenger models: one table per model, the
 * auto-increment counters, and the clock that fills `auto_now_add` fields.
 * Every insertion takes the current clock value and advances the clock, so a
 * row with a larger id was created later. That is what lets the default
 * orderings (newest first) be read off the tables in descending id order.
 * Deleting a row deletes what refers to it (`on_delete=models.CASCADE`).
 */
module Store {
  import opened Models
  import opened Querysets

  ghost predicate UsersValid(users: map<UserId, User>) {
    forall id :: id in users ==> users[id].id == id
  }

  ghost predicate ChatsValid(users: map<UserId, User>, chats: map<ChatId, Chat>, clock: Timestamp, nextId: ChatId) {
    && (forall id :: id in chats ==>
          && chats[id].id == id && id < nextId && chats[id].createdAt < clock
          && chats[id].sender in users && chats[id].recipient in users)
    && (forall a, b :: a in chats && b in chats && a < b ==> chats[a].createdAt < chats[b].createdAt)
  }

  ghost predicate MessagesValid(
    users: map<UserId, User>, chats: map<ChatId, Chat>, messages: map<MessageId, Message>,
    clock: Timestamp, nextId: MessageId)
  {
    && (forall id :: id in messages ==>
          && messages[id].id == id && id < nextId && messages[id].dateSent < clock
          && messages[id].chat in chats && messages[id].author in users
          && messages[id].likes <= users.Keys && messages[id].dislikes <= users.Keys)
    && (forall a, b :: a in messages && b in messages && a < b ==> messages[a].dateSent < messages[b].dateSent)
  }

  ghost predicate ImagesValid(messages: map<MessageId, Message>, images: map<ImageId, Image>, nextId: ImageId) {
    forall id :: id in images ==> images[id].id == id && id < nextId && images[id].message in messages
  }

  /** The contents of the database. */
  datatype Tables = Tables(
    users: map<UserId, User>,
    chats: map<ChatId, Chat>,
    messages: map<MessageId, Message>,
    images: map<ImageId, Image>,
    clock: Timestamp,  // the timestamp the next inserted row receives
    nextChatId: ChatId,
    nextMessageId: MessageId,
    nextImageId: ImageId)
  {
    /** Keys match ids, every reference points at an existing row, and later ids are later in time. */
    ghost predicate Valid() {
      && UsersValid(users)
      && ChatsValid(users, chats, clock, nextChatId)
      && MessagesValid(users, chats, messages, clock, nextMessageId)
      && ImagesValid(messages, images, nextImageId)
    }

    /** `Chat.objects.all()`: every chat, newest first. */
    function AllChats(): (r: seq<Chat>)
      requires Valid()
      ensures forall c :: c in r <==> c in chats.Values
      ensures ChatsNewestFirst(r)
    {
      DescMembers(chats, nextChatId);
      DescOrdered(chats, nextChatId, ChatCreated);
      Desc(chats, nextChatId)
    }

    /** `Message.objects.all()`: every message, newest first. */
    function AllMessages(): (r: seq<Message>)
      requires Valid()
      ensures forall m :: m in r <==> m in messages.Values
      ensures MessagesNewestFirst(r)
    {
      DescMembers(messages, nextMessageId);
      DescOrdered(messages, nextMessageId, MessageSent);
      Desc(messages, nextMessageId)
    }
  }

  /** `auto_now_add` fields are written once, on insertion, and never again. */
  ghost predicate TimestampsKept(t: Tables, t': Tables) {
    && (forall id :: id in t.chats && id in t'.chats ==> t'.chats[id].createdAt == t.chats[id].createdAt)
    && (forall id :: id in t.messages && id in t'.messages ==> t'.messages[id].dateSent == t.messages[id].dateSent)
  }

  /** A database holding the given accounts and nothing else. */
  function Initial(accounts: map<UserId, User>): (t: Tables)
    requires UsersValid(accounts)
    ensures t.Valid() && t.users == accounts
    ensures t.AllChats() == [] && t.AllMessages() == [] && t.images == map[]
  {
    Tables(accounts, map[], map[], map[], 0, 0, 0, 0)
  }

  /** The chat that `Chat.objects.create` inserts next. */
  function NextChat(t: Tables, sender: UserId, recipient: UserId): Chat {
    Chat(t.nextChatId, sender, recipient, t.clock)
  }

  /** `Chat.objects.create(sender=…, recipient=…)`. */
  function AddChat(t: Tables, sender: UserId, recipient: UserId): Tables {
    var c := NextChat(t, sender, recipient);
    t.(chats := t.chats[c.id := c], nextChatId := t.nextChatId + 1, clock := t.clock + 1)
  }

  /** A chat between existing users goes in under a fresh id and keeps the database valid. */
  lemma AddChatKeepsValid(t: Tables, sender: UserId, recipient: UserId)
    requires t.Valid() && sender in t.users && recipient in t.users
    ensures NextChat(t, sender, recipient).id !in t.chats
    ensures AddChat(t, sender, recipient).Valid() && TimestampsKept(t, AddChat(t, sender, recipient))
  {
  }

  /** The new chat heads the default ordering; the chats listed before follow it. */
  lemma AddChatHeadsListing(t: Tables, sender: UserId, recipient: UserId)
    requires t.Valid() && sender in t.users && recipient in t.users
    ensures AddChat(t, sender, recipient).AllChats() == [NextChat(t, sender, recipient)] + t.AllChats()
  {
    var r := AddChat(t, sender, recipient);
    AddChatKeepsValid(t, sender, recipient);
    DescUnchangedBelow(t.chats, r.chats, t.nextChatId);
  }

  /** The message that `Message.objects.create` inserts next: unread, with no likes or dislikes. */
  function NextMessage(t: Tables, chat: ChatId, author: UserId, text: string): (m: Message) {
    Message(t.nextMessageId, chat, author, text, t.clock, false, {}, {})
  }

  /** `Message.objects.create(chat=…, author=…, text=…)`. */
  function AddMessage(t: Tables, chat: ChatId, author: UserId, text: string): Tables {
    var m := NextMessage(t, chat, author, text);
    t.(messages := t.messages[m.id := m], nextMessageId := t.nextMessageId + 1, clock := t.clock + 1)
  }

  /** A message in an existing chat by an existing user goes in under a fresh id and keeps the database valid. */
  lemma AddMessageKeepsValid(t: Tables, chat: ChatId, author: UserId, text: string)
    requires t.Valid() && chat in t.chats && author in t.users
    ensures NextMessage(t, chat, author, text).id !in t.messages
    ensures AddMessage(t, chat, author, text).Valid() && TimestampsKept(t, AddMessage(t, chat, author, text))
  {
  }

  /** The new message heads the default ordering; the chat listing is as before. */
  lemma AddMessageHeadsListing(t: Tables, chat: ChatId, author: UserId, text: string)
    requires t.Valid() && chat in t.chats && author in t.users
    ensures AddMessage(t, chat, author, text).AllMessages() == [NextMessage(t, chat, author, text)] + t.AllMessages()
    ensures AddMessage(t, chat, author, text).AllChats() == t.AllChats()
  {
    var r := AddMessage(t, chat, author, text);
    AddMessageKeepsValid(t, chat, author, text);
    DescUnchangedBelow(t.messages, r.messages, t.nextMessageId);
  }

  /** `Image.objects.create(message=…, image=…)`. */
  function AddImage(t: Tables, message: MessageId, data: ImageData): Tables {
    var img := Image(t.nextImageId, message, data);
    t.(images := t.images[img.id := img], nextImageId := t.nextImageId + 1, clock := t.clock + 1)
  }

  /** An image of an existing message goes in under a fresh id and keeps the database valid. */
  lemma AddImageKeepsValid(t: Tables, message: MessageId, data: ImageData)
    requires t.Valid() && message in t.messages
    ensures t.nextImageId !in t.images
    ensures AddImage(t, message, data).Valid()
  {
  }

  /** `message.save()` after its editable fields changed. */
  function SaveMessage(t: Tables, m: Message): Tables {
    t.(messages := t.messages[m.id := m])
  }

  /** Saving keeps the database valid when chat, author and date are those stored and reactions name users. */
  lemma SaveMessageKeepsValid(t: Tables, m: Message)
    requires t.Valid() && m.id in t.messages
    requires m.chat == t.messages[m.id].chat && m.author == t.messages[m.id].author
    requires m.dateSent == t.messages[m.id].dateSent
    requires m.likes <= t.users.Keys && m.dislikes <= t.users.Keys
    ensures SaveMessage(t, m).Valid() && TimestampsKept(t, SaveMessage(t, m))
  {
    SavedMessageValid(t.users, t.chats, t.messages, t.clock, t.nextMessageId, m);
  }

  /** `message.delete()`: the message goes, and so do exactly the images that belong to it. */
  function RemoveMessage(t: Tables, id: MessageId): (r: Tables)
    ensures r.messages.Keys == t.messages.Keys - {id}
    ensures forall i :: i in r.messages ==> r.messages[i] == t.messages[i]
    ensures forall i :: i in r.images ==> r.images[i].message != id && i in t.images && r.images[i] == t.images[i]
    ensures forall i :: i in t.images && t.images[i].message != id ==> i in r.images
    ensures r.users == t.users && r.chats == t.chats
  {
    t.(messages := t.messages - {id},
       images := map i | i in t.images && t.images[i].message != id :: t.images[i])
  }

  lemma RemoveMessageKeepsValid(t: Tables, id: MessageId)
    requires t.Valid()
    ensures RemoveMessage(t, id).Valid() && TimestampsKept(t, RemoveMessage(t, id))
  {
  }

  /** `chat.delete()`: the chat goes, with exactly its messages and their images. */
  function RemoveChat(t: Tables, id: ChatId): (r: Tables)
    ensures r.chats.Keys == t.chats.Keys - {id}
    ensures forall i :: i in r.chats ==> r.chats[i] == t.chats[i]
    ensures forall i :: i in r.messages ==> r.messages[i].chat != id && i in t.messages && r.messages[i] == t.messages[i]
    ensures forall i :: i in t.messages && t.messages[i].chat != id ==> i in r.messages
    ensures forall i :: i in r.images ==> r.images[i].message in r.messages && i in t.images && r.images[i] == t.images[i]
    ensures forall i :: i in t.images && t.images[i].message in r.messages ==> i in r.images
    ensures r.users == t.users
  {
    var messages := map i | i in t.messages && t.messages[i].chat != id :: t.messages[i];
    t.(chats := t.chats - {id}, messages := messages, images := ImagesOf(t.images, messages))
  }

  lemma RemoveChatKeepsValid(t: Tables, id: ChatId)
    requires t.Valid()
    ensures RemoveChat(t, id).Valid() && TimestampsKept(t, RemoveChat(t, id))
  {
    var messages := map i | i in t.messages && t.messages[i].chat != id :: t.messages[i];
    ImagesOfValid(t.messages, t.images, t.nextImageId, messages);
  }

  /** The row a message keeps when user `u` is deleted: `u`'s likes and dislikes go with `u`. */
  function WithoutReactionsOf(m: Message, u: UserId): Message {
    m.(likes := m.likes - {u}, dislikes := m.dislikes - {u})
  }

  /**
   * `user.delete()`: the user goes, with the chats they take part in and those
   * chats' messages, the messages they wrote, the images of every removed
   * message, and their likes and dislikes on the messages that remain.
   */
  function RemoveUser(t: Tables, u: UserId): (r: Tables)
    ensures r.users.Keys == t.users.Keys - {u}
    ensures forall i :: i in r.users ==> i in t.users && r.users[i] == t.users[i]
    ensures forall i :: i in r.chats ==> i in t.chats && r.chats[i] == t.chats[i]
    ensures forall i :: i in r.chats <==> i in t.chats && !IsParticipant(t.chats[i], u)
    ensures forall i :: i in r.messages <==>
      i in t.messages && t.messages[i].chat in r.chats && t.messages[i].author != u
    ensures forall i :: i in r.messages ==> r.messages[i] == WithoutReactionsOf(t.messages[i], u)
    ensures forall i :: i in r.messages ==> u !in r.messages[i].likes && u !in r.messages[i].dislikes
    ensures forall i :: i in r.images <==> i in t.images && t.images[i].message in r.messages
    ensures forall i :: i in r.images ==> i in t.images && r.images[i] == t.images[i]
  {
    var chats := ChatsWithout(t.chats, u);
    var messages := MessagesWithout(t.messages, chats, u);
    t.(users := t.users - {u}, chats := chats, messages := messages, images := ImagesOf(t.images, messages))
  }

  lemma RemoveUserKeepsValid(t: Tables, u: UserId)
    requires t.Valid()
    ensures RemoveUser(t, u).Valid() && TimestampsKept(t, RemoveUser(t, u))
  {
    ChatsWithoutValid(t.users, t.chats, t.clock, t.nextChatId, u);
    MessagesWithoutValid(t.users, t.chats, t.messages, t.clock, t.nextMessageId, u);
    ImagesOfValid(t.messages, t.images, t.nextImageId, MessagesWithout(t.messages, ChatsWithout(t.chats, u), u));
  }

  /** The chats `u` takes no part in. */
  function ChatsWithout(chats: map<ChatId, Chat>, u: UserId): map<ChatId, Chat> {
    map i | i in chats && !IsParticipant(chats[i], u) :: chats[i]
  }

  /** The messages of `chats` that `u` did not write, with `u`'s reactions removed. */
  function MessagesWithout(messages: map<MessageId, Message>, chats: map<ChatId, Chat>, u: UserId): map<MessageId, Message> {
    map i | i in messages && messages[i].chat in chats && messages[i].author != u :: WithoutReactionsOf(messages[i], u)
  }

  /** The images whose message is in `messages`. */
  function ImagesOf(images: map<ImageId, Image>, messages: map<MessageId, Message>): map<ImageId, Image> {
    map i | i in images && images[i].message in messages :: images[i]
  }

  lemma ChatsWithoutValid(users: map<UserId, User>, chats: map<ChatId, Chat>, clock: Timestamp, n: ChatId, u: UserId)
    requires ChatsValid(users, chats, clock, n)
    ensures ChatsValid(users - {u}, ChatsWithout(chats, u), clock, n)
  {
  }

  lemma MessagesWithoutValid(
    users: map<UserId, User>, chats: map<ChatId, Chat>, messages: map<MessageId, Message>,
    clock: Timestamp, n: MessageId, u: UserId)
    requires MessagesValid(users, chats, messages, clock, n)
    ensures MessagesValid(users - {u}, ChatsWithout(chats, u), MessagesWithout(messages, ChatsWithout(chats, u), u), clock, n)
  {
  }

  lemma SavedMessageValid(
    users: map<UserId, User>, chats: map<ChatId, Chat>, messages: map<MessageId, Message>,
    clock: Timestamp, n: MessageId, m: Message)
    requires MessagesValid(users, chats, messages, clock, n) && m.id in messages
    requires m.chat == messages[m.id].chat && m.author == messages[m.id].author
    requires m.dateSent == messages[m.id].dateSent
    requires m.likes <= users.Keys && m.dislikes <= users.Keys
    ensures MessagesValid(users, chats, messages[m.id := m], clock, n)
  {
  }

  lemma ImagesOfValid(
    messages: map<MessageId, Message>, images: map<ImageId, Image>, n: ImageId,
    messages': map<MessageId, Message>)
    requires ImagesValid(messages, images, n)
    ensures ImagesValid(messages', ImagesOf(images, messages'), n)
  {
  }

  /** Rows at keys below `n` that agree give the same reading below `n`. */
  lemma {:induction false} DescUnchangedBelow<T>(m: map<nat, T>, m': map<nat, T>, n: nat)
    requires forall k :: k < n ==> (k in m <==> k in m')
    requires forall k :: k < n && k in m ==> m'[k] == m[k]
    ensures Desc(m', n) == Desc(m, n)
  {
    if n > 0 {
      DescUnchangedBelow(m, m', n - 1);
    }
  }

  /** The database as the program sees it: the ORM's create, save and delete calls update it in place. */
  class Database {
    var tables: Tables

    ghost predicate Valid()
      reads this
    {
      tables.Valid()
    }

    constructor (accounts: map<UserId, User>)
      requires UsersValid(accounts)
      ensures Valid() && tables == Initial(accounts)
    {
      tables := Initial(accounts);
    }

    method InsertChat(sender: UserId, recipient: UserId) returns (c: Chat)
      requires Valid() && sender in tables.users && recipient in tables.users
      modifies this
      ensures Valid() && TimestampsKept(old(tables), tables)
      ensures c == NextChat(old(tables), sender, recipient) && c.id !in old(tables.chats)
      ensures tables == AddChat(old(tables), sender, recipient)
    {
      AddChatKeepsValid(tables, sender, recipient);
      c := NextChat(tables, sender, recipient);
      tables := AddChat(tables, sender, recipient);
    }

    method InsertMessage(chat: ChatId, author: UserId, text: string) returns (m: Message)
      requires Valid() && chat in tables.chats && author in tables.users
      modifies this
      ensures Valid() && TimestampsKept(old(tables), tables)
      ensures m == NextMessage(old(tables), chat, author, text) && m.id !in old(tables.messages)
      ensures tables == AddMessage(old(tables), chat, author, text)
    {
      AddMessageKeepsValid(tables, chat, author, text);
      m := NextMessage(tables, chat, author, text);
      tables := AddMessage(tables, chat, author, text);
    }

    /**
     * The picture is written to file storage before its row is inserted;
     * `stored` is whether that write succeeds. When it fails nothing changes.
     */
    method InsertImage(message: MessageId, data: ImageData, stored: bool) returns (ok: bool)
      requires Valid() && message in tables.messages
      modifies this
      ensures Valid()
      ensures ok == stored
      ensures tables == if stored then AddImage(old(tables), message, data) else old(tables)
    {
      ok := stored;
      if stored {
        AddImageKeepsValid(tables, message, data);
        tables := AddImage(tables, message, data);
      }
    }

    method Save(m: Message)
      requires Valid() && m.id in tables.messages
      requires m.chat == tables.messages[m.id].chat && m.author == tables.messages[m.id].author
      requires m.dateSent == tables.messages[m.id].dateSent
      requires m.likes <= tables.users.Keys && m.dislikes <= tables.users.Keys
      modifies this
      ensures Valid() && TimestampsKept(old(tables), tables)
      ensures tables == SaveMessage(old(tables), m)
    {
      SaveMessageKeepsValid(tables, m);
      tables := SaveMessage(tables, m);
    }

    method DeleteMessage(id: MessageId)
      requires Valid()
      modifies this
      ensures Valid() && TimestampsKept(old(tables), tables)
      ensures tables == RemoveMessage(old(tables), id)
    {
      RemoveMessageKeepsValid(tables, id);
      tables := RemoveMessage(tables, id);
    }

    method DeleteChat(id: ChatId)
      requires Valid()
      modifies this
      ensures Valid() && TimestampsKept(old(tables), tables)
      ensures tables == RemoveChat(old(tables), id)
    {
      RemoveChatKeepsValid(tables, id);
      tables := RemoveChat(tables, id);
    }

    method DeleteUser(u: UserId)
      requires Valid()
      modifies this
      ensures Valid() && TimestampsKept(old(tables), tables)
      ensures tables == RemoveUser(old(tables), u)
    {
      RemoveUserKeepsValid(tables, u);
      tables := RemoveUser(tables, u);
    }

    /**
     * The end of a failed transaction: the message and image tables are put
     * back as they were at its start. The counters and the clock are not.
     */
    method Rollback(saved: Tables)
      requires Valid() && saved.Valid()
      requires saved.users == tables.users && saved.chats == tables.chats
      requires saved.clock <= tables.clock && saved.nextMessageId <= tables.nextMessageId
      requires saved.nextImageId <= tables.nextImageId
      modifies this
      ensures Valid()
      ensures tables == old(tables).(messages := saved.messages, images := saved.images)
    {
      tables := tables.(messages := saved.messages, images := saved.images);
    }
  }
}
