/**
 * The request sequences of the API's view tests, replayed on the model:
 * three accounts, chat creation, retrieval by id and a two-message
 * conversation.
 */
module Scenarios {
  import opened Wrappers
  import opened Models
  import opened Store
  import opened Responses
  import opened Filters
  import opened Serializers
  import opened Views

  /** The three accounts the view tests start from. */
  function Accounts(): (users: map<UserId, User>)
    ensures UsersValid(users)
  {
    map[
      1 := User(1, "user1", "User", "One"),
      2 := User(2, "user2", "User", "Two"),
      3 := User(3, "user3", "User", "Three")]
  }

  /** The empty database with the three accounts. */
  function Start(): (t: Tables)
    ensures t.Valid() && t.users == Accounts() && t.chats == map[] && t.nextChatId == 0
  {
    Initial(Accounts())
  }

  /**
   * Chat creation as the tests post it: user2 opens a chat with user1, tries
   * one with itself, repeats the first from both sides, and user1 then opens
   * one with user3. Only the chat with oneself is refused: nothing in the
   * serializer or the schema rejects a second chat between the same pair.
   */
  lemma CreateChatStatuses()
    ensures
      var t1 := AddChat(Start(), 2, 1);
      var t2 := AddChat(t1, 2, 1);
      var t3 := AddChat(t2, 1, 2);
      && ValidateChat(Start().users, 2, ChatCreateData(Some(1))).Success?
      && ValidateChat(t1.users, 2, ChatCreateData(Some(2))) == Failure(ValidationError(SelfChat))
      && ValidateChat(t1.users, 2, ChatCreateData(Some(1))).Success?
      && ValidateChat(t2.users, 1, ChatCreateData(Some(2))).Success?
      && ValidateChat(t3.users, 1, ChatCreateData(Some(3))).Success?
      && t3.chats.Keys == {0, 1, 2}
  {
  }

  /** A new chat is retrieved by both of its participants and not found for anyone else. */
  lemma NewChatRetrievedByParticipantsOnly(t: Tables, sender: UserId, recipient: UserId, user: UserId)
    requires t.Valid() && sender in t.users && recipient in t.users
    ensures AddChat(t, sender, recipient).Valid()
    ensures Retrieve(AddChat(t, sender, recipient), user, t.nextChatId, NoChatFilter).Success? <==>
      user == sender || user == recipient
    ensures user != sender && user != recipient ==>
      Retrieve(AddChat(t, sender, recipient), user, t.nextChatId, NoChatFilter) == Failure(NotFound)
  {
    AddChatKeepsValid(t, sender, recipient);
  }

  /** The retrieval test: user1 and user2 get their chat, user3 gets not found. */
  lemma RetrieveChatStatuses()
    ensures
      var t := AddChat(Start(), 1, 2);
      && t.Valid()
      && Retrieve(t, 1, 0, NoChatFilter).Success?
      && Retrieve(t, 2, 0, NoChatFilter).Success?
      && Retrieve(t, 3, 0, NoChatFilter) == Failure(NotFound)
  {
    NewChatRetrievedByParticipantsOnly(Start(), 1, 2, 1);
    NewChatRetrievedByParticipantsOnly(Start(), 1, 2, 2);
    NewChatRetrievedByParticipantsOnly(Start(), 1, 2, 3);
  }

  /** Helper: a two-element sequence built by concatenation. */
  lemma Pair<T>(x: T, y: T)
    ensures [x] + [y] == [x, y]
  {
  }

  /** The first message posted to a new chat is the only one in it. */
  lemma FirstPostAlone(t: Tables, sender: UserId, recipient: UserId, first: string)
    requires t.Valid() && sender in t.users && recipient in t.users
    ensures
      var c := t.nextChatId;
      var t2 := AddMessage(AddChat(t, sender, recipient), c, sender, first);
      && t2.Valid() && c in t2.chats && IsParticipant(t2.chats[c], sender) && recipient in t2.users
      && ChatMessages(t2, c) == [NextMessage(AddChat(t, sender, recipient), c, sender, first)]
  {
    NewChatHasNoMessages(t, sender, recipient);
    ChatMessagesAfterPost(AddChat(t, sender, recipient), t.nextChatId, sender, first);
  }

  /**
   * The sender of a new chat posts `first`, the recipient answers `second`,
   * and the sender's listing of the chat shows the answer first.
   */
  lemma ConversationListedNewestFirst(t: Tables, sender: UserId, recipient: UserId, first: string, second: string)
    requires t.Valid() && sender in t.users && recipient in t.users
    ensures
      var c := t.nextChatId;
      var t1 := AddChat(t, sender, recipient);
      var t2 := AddMessage(t1, c, sender, first);
      var t3 := AddMessage(t2, c, recipient, second);
      && t3.Valid()
      && ListMessages(t3, sender, c, NoChatFilter, None, None) ==
         Success([NextMessage(t2, c, recipient, second), NextMessage(t1, c, sender, first)])
  {
    var c := t.nextChatId;
    var t1 := AddChat(t, sender, recipient);
    var t2 := AddMessage(t1, c, sender, first);
    FirstPostAlone(t, sender, recipient, first);
    ListingAfterPost(t2, c, sender, recipient, second);
    Pair(NextMessage(t2, c, recipient, second), NextMessage(t1, c, sender, first));
  }

  /** The message test: "Hi!" by user2 is listed before "Hello" by user1. */
  lemma SendMessageListing()
    ensures
      var t1 := AddChat(Start(), 1, 2);
      var t2 := AddMessage(t1, 0, 1, "Hello");
      var t3 := AddMessage(t2, 0, 2, "Hi!");
      && ListMessages(t3, 1, 0, NoChatFilter, None, None) ==
         Success([Message(1, 0, 2, "Hi!", 2, false, {}, {}), Message(0, 0, 1, "Hello", 1, false, {}, {})])
  {
    ConversationListedNewestFirst(Start(), 1, 2, "Hello", "Hi!");
  }
}
