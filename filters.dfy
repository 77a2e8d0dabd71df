/**
 * The filter sets of the API. Every filter narrows a queryset by a
 * case-insensitive substring lookup (`icontains`) and leaves the order of
 * what it keeps alone. A parameter that is absent or empty switches its
 * filter off, as django-filter does for every `CharFilter`.
 */
module Filters {
  import opened Wrappers
  import opened Text
  import opened Querysets
  import opened Models

  /** A query parameter holding a value that django-filter applies: present and non-empty. */
  predicate Given(p: Option<string>) {
    p.Some? && p.value != ""
  }

  /** The user fields the filters look up. */
  datatype UserField = Username | FirstName | LastName

  function FieldOf(u: User, f: UserField): string {
    match f
    case Username => u.username
    case FirstName => u.firstName
    case LastName => u.lastName
  }

  /** `<role>__<field>__icontains=value` for the user with id `id`; a missing user matches nothing. */
  predicate UserMatches(users: map<UserId, User>, id: UserId, f: UserField, value: string) {
    id in users && IContains(FieldOf(users[id], f), value)
  }

  /** `Q(sender__<field>__icontains=value) | Q(recipient__<field>__icontains=value)`. */
  predicate ParticipantMatches(users: map<UserId, User>, c: Chat, f: UserField, value: string) {
    UserMatches(users, c.sender, f, value) || UserMatches(users, c.recipient, f, value)
  }

  /** The filtering shared by the three `ChatFilter` methods. */
  function FilterByParticipant(users: map<UserId, User>, chats: seq<Chat>, f: UserField, value: string): (r: seq<Chat>)
    ensures forall c :: c in r <==> c in chats && ParticipantMatches(users, c, f, value)
    ensures IsSubsequence(r, chats)
  {
    var p := (c: Chat) => ParticipantMatches(users, c, f, value);
    KeepMembers(chats, p);
    KeepIsSubsequence(chats, p);
    Keep(chats, p)
  }

  /** `ChatFilter.filter_username`: chats where either participant's username contains `value`. */
  function FilterUsername(users: map<UserId, User>, chats: seq<Chat>, value: string): (r: seq<Chat>)
    ensures forall c :: c in r <==>
      && c in chats
      && ((c.sender in users && IContains(users[c.sender].username, value)) ||
          (c.recipient in users && IContains(users[c.recipient].username, value)))
    ensures IsSubsequence(r, chats)
  {
    FilterByParticipant(users, chats, Username, value)
  }

  /** `ChatFilter.filter_first_name`: the same rule on first names. */
  function FilterFirstName(users: map<UserId, User>, chats: seq<Chat>, value: string): (r: seq<Chat>)
    ensures forall c :: c in r <==>
      && c in chats
      && ((c.sender in users && IContains(users[c.sender].firstName, value)) ||
          (c.recipient in users && IContains(users[c.recipient].firstName, value)))
    ensures IsSubsequence(r, chats)
  {
    FilterByParticipant(users, chats, FirstName, value)
  }

  /** `ChatFilter.filter_last_name`: the same rule on last names. */
  function FilterLastName(users: map<UserId, User>, chats: seq<Chat>, value: string): (r: seq<Chat>)
    ensures forall c :: c in r <==>
      && c in chats
      && ((c.sender in users && IContains(users[c.sender].lastName, value)) ||
          (c.recipient in users && IContains(users[c.recipient].lastName, value)))
    ensures IsSubsequence(r, chats)
  {
    FilterByParticipant(users, chats, LastName, value)
  }

  /** The query parameters `ChatFilter` reads. */
  datatype ChatFilterParams = ChatFilterParams(username: Option<string>, firstName: Option<string>, lastName: Option<string>)

  const NoChatFilter := ChatFilterParams(None, None, None)

  /** A chat passes a parameter when the parameter is switched off or the chat matches it. */
  predicate PassesParam(users: map<UserId, User>, c: Chat, f: UserField, p: Option<string>) {
    Given(p) ==> ParticipantMatches(users, c, f, p.value)
  }

  predicate PassesChatFilter(users: map<UserId, User>, c: Chat, params: ChatFilterParams) {
    && PassesParam(users, c, Username, params.username)
    && PassesParam(users, c, FirstName, params.firstName)
    && PassesParam(users, c, LastName, params.lastName)
  }

  /** One filter of the set, applied only when its parameter is given. */
  function Step(users: map<UserId, User>, chats: seq<Chat>, f: UserField, p: Option<string>): (r: seq<Chat>)
    ensures forall c :: c in r <==> c in chats && PassesParam(users, c, f, p)
    ensures IsSubsequence(r, chats)
    ensures !Given(p) ==> r == chats
  {
    if !Given(p) then
      IsSubsequenceOfItself(chats);
      chats
    else
      match f
      case Username => FilterUsername(users, chats, p.value)
      case FirstName => FilterFirstName(users, chats, p.value)
      case LastName => FilterLastName(users, chats, p.value)
  }

  /**
   * `ChatFilter().filter_queryset`: the three filters in their declared order.
   * A chat survives exactly when it matches every given parameter.
   */
  function ApplyChatFilter(users: map<UserId, User>, chats: seq<Chat>, params: ChatFilterParams): (r: seq<Chat>)
    ensures forall c :: c in r <==> c in chats && PassesChatFilter(users, c, params)
    ensures IsSubsequence(r, chats)
    ensures params == NoChatFilter ==> r == chats
  {
    var r1 := Step(users, chats, Username, params.username);
    var r2 := Step(users, r1, FirstName, params.firstName);
    var r3 := Step(users, r2, LastName, params.lastName);
    IsSubsequenceTransitive(r3, r2, r1);
    IsSubsequenceTransitive(r3, r1, chats);
    r3
  }

  /** The `ChatFilter` parameters are declared `iexact` but looked up with `icontains`: "USER" finds user "user1". */
  lemma ChatFilterMatchesPartially(users: map<UserId, User>, c: Chat)
    requires c.sender in users && users[c.sender].username == "user1"
    ensures c in FilterUsername(users, [c], "USER")
    ensures !IExact(users[c.sender].username, "USER")
  {
    PartialMatchIsNotExact();
  }

  /** `MessageFilter`: `text__icontains` and `author__username__icontains`. */
  function MessageFilter(users: map<UserId, User>, messages: seq<Message>, text: Option<string>, author: Option<string>): (r: seq<Message>)
    ensures forall m :: m in r <==>
      && m in messages
      && (Given(text) ==> IContains(m.text, text.value))
      && (Given(author) ==> UserMatches(users, m.author, Username, author.value))
    ensures IsSubsequence(r, messages)
  {
    var byText := (m: Message) => Given(text) ==> IContains(m.text, text.value);
    var byAuthor := (m: Message) => Given(author) ==> UserMatches(users, m.author, Username, author.value);
    var r1 := Keep(messages, byText);
    KeepMembers(messages, byText);
    KeepIsSubsequence(messages, byText);
    KeepMembers(r1, byAuthor);
    KeepIsSubsequence(r1, byAuthor);
    IsSubsequenceTransitive(Keep(r1, byAuthor), r1, messages);
    Keep(r1, byAuthor)
  }

  /**
   * `MessageFilter` is looser on authors than the exact `author__username`
   * lookup the message listing does: every exact match passes it, and a
   * message by "user1" passes it for "USER" though it is no exact match.
   */
  lemma MessageFilterIsLooserThanExactAuthor(users: map<UserId, User>, m: Message, name: string)
    requires m.author in users
    ensures users[m.author].username == name ==> m in MessageFilter(users, [m], None, Some(name))
    ensures users[m.author].username == "user1" ==>
      m in MessageFilter(users, [m], None, Some("USER")) && users[m.author].username != "USER"
  {
    if users[m.author].username == name {
      ExactMatchIsPartialMatch(name, name);
    }
    PartialMatchIsNotExact();
  }

  /** The query parameters `UserFilter` reads. */
  datatype UserFilterParams = UserFilterParams(username: Option<string>, firstName: Option<string>, lastName: Option<string>)

  predicate PassesUserFilter(u: User, params: UserFilterParams) {
    && (Given(params.username) ==> IContains(u.username, params.username.value))
    && (Given(params.firstName) ==> IContains(u.firstName, params.firstName.value))
    && (Given(params.lastName) ==> IContains(u.lastName, params.lastName.value))
  }

  /** `UserFilter`: each given parameter must be contained, case-insensitively, in its own field. */
  function UserFilter(users: seq<User>, params: UserFilterParams): (r: seq<User>)
    ensures forall u :: u in r <==> u in users && PassesUserFilter(u, params)
    ensures IsSubsequence(r, users)
    ensures params == UserFilterParams(None, None, None) ==> r == users
  {
    var p := (u: User) => PassesUserFilter(u, params);
    KeepMembers(users, p);
    KeepIsSubsequence(users, p);
    if params == UserFilterParams(None, None, None) then
      KeepEverything(users, p);
      Keep(users, p)
    else
      Keep(users, p)
  }
}
