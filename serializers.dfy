/**
 * The serializers of the chat API: validation of a new chat, insertion of
 * chats and messages (with their images, all or nothing), the `chat` and
 * `messages_count` fields they report, and the checks Django REST
 * framework applies to message data before `save()`.
 */
module Serializers {
  import opened Wrappers
  import opened Models
  import opened Querysets
  import opened Store
  import opened Responses

  /** The body of a chat creation request: only `recipient` is writable. */
  datatype ChatCreateData = ChatCreateData(recipient: Option<UserId>)

  /** The validated data of a new chat: `sender` is the requester. */
  datatype ChatDraft = ChatDraft(sender: UserId, recipient: UserId)

  /**
   * `ChatCreateSerializer.validate`: no chat with oneself, and the recipient
   * has to exist; the requester becomes the sender.
   */
  function Validate(users: map<UserId, User>, requester: UserId, recipient: UserId): (r: Result<ChatDraft, Error>)
    ensures r.Success? <==> recipient != requester && recipient in users
    ensures r.Success? ==> r.value.sender == requester && r.value.recipient == recipient
    ensures recipient == requester ==> r == Failure(ValidationError(SelfChat))
    ensures recipient != requester && recipient !in users ==> r == Failure(ValidationError(UnknownRecipient))
  {
    if requester == recipient then Failure(ValidationError(SelfChat))
    else if recipient !in users then Failure(ValidationError(UnknownRecipient))
    else Success(ChatDraft(requester, recipient))
  }

  /**
   * `ChatCreateSerializer.is_valid`: the `recipient` field (a primary key of
   * an existing user, required) is checked first, then `validate`.
   */
  function ValidateChat(users: map<UserId, User>, requester: UserId, data: ChatCreateData): (r: Result<ChatDraft, Error>)
    ensures r.Success? <==> data.recipient.Some? && data.recipient.value in users && data.recipient.value != requester
    ensures r.Success? ==> r.value == ChatDraft(requester, data.recipient.value)
    ensures r.Failure? ==> r.error.ValidationError?
    ensures data.recipient == Some(requester) ==> r.Failure?
  {
    match data.recipient
    case None => Failure(ValidationError(MissingRecipient))
    case Some(recipient) =>
      if recipient !in users then Failure(ValidationError(UnknownRecipient))
      else Validate(users, requester, recipient)
  }

  /** `ChatCreateSerializer.create`: one new chat between the validated sender and recipient. */
  method CreateChat(db: Database, draft: ChatDraft) returns (c: Chat)
    requires db.Valid() && draft.sender in db.tables.users && draft.recipient in db.tables.users
    modifies db
    ensures db.Valid()
    ensures c.sender == draft.sender && c.recipient == draft.recipient && c.id !in old(db.tables.chats)
    ensures db.tables == AddChat(old(db.tables), draft.sender, draft.recipient)
    ensures db.tables.chats == old(db.tables.chats)[c.id := c]
  {
    c := db.InsertChat(draft.sender, draft.recipient);
  }

  /** The ids of the messages of `chat`. */
  ghost function MessageIdsOf(messages: map<MessageId, Message>, chat: ChatId): set<MessageId> {
    set i | i in messages && messages[i].chat == chat
  }

  /** `ChatSerializer.get_messages_count`: `chat.message.count()`. */
  function MessagesCount(t: Tables, chat: ChatId): (n: nat)
    requires t.Valid()
    ensures n == |MessageIdsOf(t.messages, chat)|
  {
    var p := (m: Message) => m.chat == chat;
    DescCount(t.messages, t.nextMessageId, p);
    assert KeysBelow(t.messages, t.nextMessageId, p) == MessageIdsOf(t.messages, chat);
    |Keep(t.AllMessages(), p)|
  }

  /** Storing `m` under a fresh id adds that id to the messages of `m`'s chat only. */
  lemma MessageIdsAfterInsert(messages: map<MessageId, Message>, m: Message, chat: ChatId)
    requires m.id !in messages
    ensures MessageIdsOf(messages[m.id := m], chat) == MessageIdsOf(messages, chat) + (if m.chat == chat then {m.id} else {})
  {
  }

  /** Posting a message to `chat` raises its count by one and leaves every other chat's count alone. */
  lemma MessagesCountAfterPost(t: Tables, chat: ChatId, author: UserId, text: string, other: ChatId)
    requires t.Valid() && chat in t.chats && author in t.users
    ensures AddMessage(t, chat, author, text).Valid()
    ensures MessagesCount(AddMessage(t, chat, author, text), chat) == MessagesCount(t, chat) + 1
    ensures other != chat ==> MessagesCount(AddMessage(t, chat, author, text), other) == MessagesCount(t, other)
  {
    AddMessageKeepsValid(t, chat, author, text);
    var m := NextMessage(t, chat, author, text);
    MessageIdsAfterInsert(t.messages, m, chat);
    MessageIdsAfterInsert(t.messages, m, other);
  }

  /** What `ChatSerializer` renders for a chat. */
  datatype ChatView = ChatView(id: ChatId, recipient: User, sender: User, createdAt: Timestamp, messagesCount: nat)

  /** `ChatSerializer.to_representation` of a stored chat: its own fields, both participants' rows and its message count. */
  function RepresentChat(t: Tables, c: Chat): (r: ChatView)
    requires t.Valid() && c.id in t.chats && t.chats[c.id] == c
    ensures r.id == c.id && r.createdAt == t.chats[c.id].createdAt
    ensures r.sender == t.users[t.chats[c.id].sender] && r.recipient == t.users[t.chats[c.id].recipient]
    ensures r.messagesCount == |MessageIdsOf(t.messages, c.id)|
  {
    ChatView(c.id, t.users[c.recipient], t.users[c.sender], c.createdAt, MessagesCount(t, c.id))
  }

  /** `MessageSerializer.get_chat`: the id of the message's chat, or none when there is no such chat. */
  function GetChat(t: Tables, m: Message): (r: Option<ChatId>)
    ensures r.Some? ==> r.value == m.chat && r.value in t.chats
    ensures t.Valid() && m in t.messages.Values ==> r == Some(m.chat)
  {
    if m.chat in t.chats then Some(m.chat) else None
  }

  /** The image rows inserted, one after another, for `images`, all linked to `message`. */
  function WithImages(t: Tables, message: MessageId, images: seq<ImageData>): (r: Tables)
    ensures r.users == t.users && r.chats == t.chats && r.messages == t.messages
    ensures r.nextChatId == t.nextChatId && r.nextMessageId == t.nextMessageId
    ensures r.clock >= t.clock && r.nextImageId == t.nextImageId + |images|
    decreases |images|
  {
    if images == [] then t
    else AddImage(WithImages(t, message, images[..|images| - 1]), message, images[|images| - 1])
  }

  /** Inserting the images of an existing message keeps the database valid. */
  lemma {:induction false} WithImagesKeepsValid(t: Tables, message: MessageId, images: seq<ImageData>)
    requires t.Valid() && message in t.messages
    ensures WithImages(t, message, images).Valid()
    decreases |images|
  {
    if images != [] {
      var n := |images| - 1;
      WithImagesKeepsValid(t, message, images[..n]);
      AddImageKeepsValid(WithImages(t, message, images[..n]), message, images[n]);
    }
  }

  /** One more turn of the insertion loop adds the next picture. */
  lemma WithImagesStep(t: Tables, message: MessageId, images: seq<ImageData>, k: nat)
    requires k < |images|
    ensures WithImages(t, message, images[..k + 1]) == AddImage(WithImages(t, message, images[..k]), message, images[k])
  {
    assert images[..k + 1][..k] == images[..k];
  }

  /** The rows `WithImages` adds: one per picture, in order, under consecutive fresh ids, each linked to `message`. */
  lemma {:induction false} WithImagesRows(t: Tables, message: MessageId, images: seq<ImageData>)
    requires forall i :: i in t.images ==> i < t.nextImageId
    ensures var r := WithImages(t, message, images);
      && (forall i :: i in r.images <==> i in t.images || t.nextImageId <= i < t.nextImageId + |images|)
      && (forall i :: i in t.images ==> r.images[i] == t.images[i])
      && (forall k :: 0 <= k < |images| ==> r.images[t.nextImageId + k] == Image(t.nextImageId + k, message, images[k]))
    decreases |images|
  {
    if images != [] {
      var n := |images| - 1;
      var first := t.nextImageId;
      WithImagesRows(t, message, images[..n]);
      var before := WithImages(t, message, images[..n]);
      var r := WithImages(t, message, images);
      assert r.images == before.images[first + n := Image(first + n, message, images[n])];
      forall k | 0 <= k < n
        ensures r.images[first + k] == Image(first + k, message, images[k])
      {
        assert images[..n][k] == images[k];
      }
    }
  }

  /** The ids `first`, …, `first + count - 1`. */
  ghost function IdRange(first: ImageId, count: nat): set<ImageId> {
    if count == 0 then {} else IdRange(first, count - 1) + {first + count - 1}
  }

  lemma {:induction false} IdRangeFacts(first: ImageId, count: nat)
    ensures |IdRange(first, count)| == count
    ensures forall i :: i in IdRange(first, count) <==> first <= i < first + count
  {
    if count > 0 {
      IdRangeFacts(first, count - 1);
    }
  }

  /** A new message ends up with exactly one image row per supplied picture: those with the new ids. */
  lemma ImagesOfNewMessage(t: Tables, message: MessageId, images: seq<ImageData>)
    requires forall i :: i in t.images ==> i < t.nextImageId
    requires forall i :: i in t.images ==> t.images[i].message != message
    ensures var r := WithImages(t, message, images);
      && (set i | i in r.images && r.images[i].message == message) == IdRange(t.nextImageId, |images|)
      && |set i | i in r.images && r.images[i].message == message| == |images|
  {
    var r := WithImages(t, message, images);
    WithImagesRows(t, message, images);
    IdRangeFacts(t.nextImageId, |images|);
    forall i | i in IdRange(t.nextImageId, |images|)
      ensures i in r.images && r.images[i].message == message
    {
      var k := i - t.nextImageId;
      assert r.images[t.nextImageId + k] == Image(t.nextImageId + k, message, images[k]);
    }
  }

  /**
   * The loop `for image_data in images_data: Image.objects.create(...)`. The
   * write of picture `failAt`, if there is one, fails and ends the loop.
   */
  method InsertImages(db: Database, message: MessageId, images: seq<ImageData>, failAt: Option<nat>)
    returns (ok: bool)
    requires db.Valid() && message in db.tables.messages
    modifies db
    ensures db.Valid()
    ensures ok <==> failAt.None? || failAt.value >= |images|
    ensures ok ==> db.tables == WithImages(old(db.tables), message, images)
    ensures !ok ==> db.tables == WithImages(old(db.tables), message, images[..failAt.value])
  {
    var start := db.tables;
    var k := 0;
    while k < |images|
      invariant 0 <= k <= |images|
      invariant start.Valid() && message in start.messages
      invariant db.tables == WithImages(start, message, images[..k])
      invariant failAt.Some? ==> k <= failAt.value
    {
      WithImagesKeepsValid(start, message, images[..k]);
      var stored := !(failAt.Some? && failAt.value == k);
      ok := db.InsertImage(message, images[k], stored);
      if !ok {
        WithImagesKeepsValid(start, message, images[..k]);
        return;
      }
      WithImagesStep(start, message, images, k);
      k := k + 1;
    }
    assert images[..k] == images;
    WithImagesKeepsValid(start, message, images);
    ok := true;
  }

  /**
   * `MessageSerializer.create`, inside `@atomic`: one message by the
   * requester in the given chat, then one image row per picture. When a
   * picture cannot be stored the exception undoes the whole transaction.
   */
  method CreateMessage(
    db: Database, user: UserId, chat: Option<ChatId>, text: string,
    images: seq<ImageData>, failAt: Option<nat>)
    returns (r: Result<Message, Error>)
    requires db.Valid() && user in db.tables.users && (chat.Some? ==> chat.value in db.tables.chats)
    modifies db
    ensures db.Valid()
    ensures chat.None? ==> r == Failure(ValidationError(MissingChat)) && db.tables == old(db.tables)
    ensures chat.Some? && (failAt.None? || failAt.value >= |images|) ==>
      && r == Success(NextMessage(old(db.tables), chat.value, user, text))
      && db.tables == WithImages(AddMessage(old(db.tables), chat.value, user, text), r.value.id, images)
    ensures chat.Some? && failAt.Some? && failAt.value < |images| ==>
      && r == Failure(ServerError)
      && db.tables.users == old(db.tables.users) && db.tables.chats == old(db.tables.chats)
      && db.tables.messages == old(db.tables.messages) && db.tables.images == old(db.tables.images)
  {
    if chat.None? {
      return Failure(ValidationError(MissingChat));
    }
    var saved := db.tables;
    var m := db.InsertMessage(chat.value, user, text);
    var ok := InsertImages(db, m.id, images, failAt);
    if !ok {
      db.Rollback(saved);
      return Failure(ServerError);
    }
    r := Success(m);
  }

  /** The writable fields of a message in a request body; `None` is a field left out. */
  datatype MessageData = MessageData(
    text: Option<string>,
    isRead: Option<bool>,
    likes: Option<set<UserId>>,
    dislikes: Option<set<UserId>>)

  /**
   * `MessageSerializer.is_valid`: `text` is required unless the update is
   * partial and may not be blank; `likes` and `dislikes` must name existing users.
   */
  function ValidateMessage(users: map<UserId, User>, data: MessageData, partial: bool): (r: Result<MessageData, Error>)
    ensures r.Success? <==>
      && (partial || data.text.Some?)
      && data.text != Some("")
      && (data.likes.Some? ==> data.likes.value <= users.Keys)
      && (data.dislikes.Some? ==> data.dislikes.value <= users.Keys)
    ensures r.Success? ==> r.value == data
    ensures r.Failure? ==> r.error.ValidationError?
  {
    if !partial && data.text.None? then Failure(ValidationError(MissingText))
    else if data.text == Some("") then Failure(ValidationError(BlankText))
    else if data.likes.Some? && !(data.likes.value <= users.Keys) then Failure(ValidationError(UnknownUser))
    else if data.dislikes.Some? && !(data.dislikes.value <= users.Keys) then Failure(ValidationError(UnknownUser))
    else Success(data)
  }

  /**
   * `ModelSerializer.update`: the fields present in `data` replace the
   * message's, the others stay; id, chat, author and date are read-only.
   */
  function ApplyUpdate(m: Message, data: MessageData): (r: Message)
    ensures r.id == m.id && r.chat == m.chat && r.author == m.author && r.dateSent == m.dateSent
    ensures data.text.Some? ==> r.text == data.text.value
    ensures data.likes.Some? ==> r.likes == data.likes.value
    ensures data.dislikes.Some? ==> r.dislikes == data.dislikes.value
    ensures data.isRead.Some? ==> r.isRead == data.isRead.value
    ensures data.text.None? ==> r.text == m.text
    ensures data.isRead.None? ==> r.isRead == m.isRead
    ensures data.likes.None? ==> r.likes == m.likes
    ensures data.dislikes.None? ==> r.dislikes == m.dislikes
    ensures data == MessageData(None, None, None, None) ==> r == m
  {
    m.(text := if data.text.Some? then data.text.value else m.text,
       isRead := if data.isRead.Some? then data.isRead.value else m.isRead,
       likes := if data.likes.Some? then data.likes.value else m.likes,
       dislikes := if data.dislikes.Some? then data.dislikes.value else m.dislikes)
  }

  /** No field of the message model keeps a user out of both `likes` and `dislikes`. */
  lemma LikesAndDislikesMayOverlap(m: Message, u: UserId)
    ensures var r := ApplyUpdate(m, MessageData(None, None, Some({u}), Some({u})));
      u in r.likes && u in r.dislikes
  {
  }
}
