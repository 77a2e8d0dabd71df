# Messenger API core in Dafny

This project models two parts of the `apichat` messenger backend.

**The chat rules of `ChatViewSet`.** This covers:
- which chats a user may see;
- retrieving one chat;
- creating a chat with the checks of `ChatCreateSerializer`;
- listing and posting the messages of a chat, where a post creates the message and its images in one atomic step;
- reading, deleting and editing one message;
- the chat, message and user filter sets;
- the `Chat`, `Message` and `Image` records, with their default orderings, defaults and cascading deletes.

The database is the datatype `Store.Tables`, one map per table. It carries a validity invariant, `Tables.Valid`:
- keys match ids;
- every foreign key points at a stored row;
- a row with a larger id was inserted later.

Every insertion stamps the row with a `clock` counter and then advances it, which stands in for `auto_now_add`. So "newest first" becomes "descending id". Read-only requests are functions of the tables. Requests that write are module-level methods (`Views.Create`, `PostMessage`, `DeleteMessage`, `UpdateMessage`) that take a `Store.Database`, a class that holds the tables. Only the ORM's create, save, delete and rollback calls are its methods (`InsertChat`, `InsertMessage`, `InsertImage`, `Save`, `Delete…`, `Rollback`), and they update the tables in place. Each method states its new tables as a transition function of the old ones (`AddChat`, `AddMessage`, `RemoveMessage`, …), and separate lemmas prove that every transition keeps the invariant.

**The three list algorithms of `apichat/api/tests.py`:**
- `bubble_sort`: an array sorted in place, with both nested loops.
- `merge_sort`: fresh arrays filled by three `while` loops, specified by the recursive function `MergeSortOf`.
- `binary_search`: a recursive function with `decreases right - left`. On a sorted array it is proved to return the leftmost occurrence, or -1.

Modules:

| module | file | models |
|---|---|---|
| `Wrappers` | wrappers.dfy | `Option` and `Result` |
| `Text` | text.dfy | the `icontains` and `iexact` lookups |
| `Querysets` | querysets.dfy | `QuerySet.filter` as an order-preserving filter, and tables read in descending key order |
| `Models` | models.dfy | the records and their default orderings |
| `Store` | store.dfy | the tables, insertions, saves and cascading deletes, and the `Database` class |
| `Responses` | responses.dfy | errors and status codes |
| `Filters` | filters.dfy | `ChatFilter`, `MessageFilter` and `UserFilter` |
| `Serializers` | serializers.dfy | `ChatCreateSerializer`, `ChatSerializer.get_messages_count` and `MessageSerializer` |
| `Views` | views.dfy | `ChatViewSet` |
| `Ordering`, `BubbleSorting`, `MergeSorting`, `Searching` | ordering.dfy, bubble_sort.dfy, merge_sort.dfy, binary_search.dfy | the algorithms |
| `Scenarios` | scenarios.dfy | the request sequences of the view tests, replayed on the model |

## Model

| member | source | states |
|---|---|---|
| Text.ContainsHasPosition | apichat/api/custom_filters.py:26-27 | when `Contains(s, v)` holds, `v` occurs in `s` at some position |
| Text.PositionIsContained | apichat/api/custom_filters.py:26-27 | every position where `v` occurs makes `Contains(s, v)` hold. With the lemma above, this makes `Contains` exactly substring search |
| Text.ExactMatchIsPartialMatch | apichat/api/custom_filters.py:14-16 | every `iexact` match is also an `icontains` match |
| Text.PartialMatchIsNotExact | apichat/api/custom_filters.py:9-16 | "USER" is an `icontains` match for "user1" but not an `iexact` match |
| Querysets.KeepIf | apichat/api/views.py:85-88 | `if value: qs = qs.filter(p)` keeps exactly the rows that pass `p` when the filter is on, keeps their order, and changes nothing when it is off |
| Querysets.KeepMembers | apichat/api/views.py:84 | a row is in `Keep(s, p)` iff it is in `s` and satisfies `p` |
| Querysets.KeepKeepsOrder | apichat/messenger/models.py:13 | filtering a queryset ordered by a key keeps it ordered |
| Querysets.DescOrdered | apichat/messenger/models.py:37 | reading a table whose keys increase with its timestamps in descending key order lists it newest first |
| Store.Tables.AllChats | apichat/messenger/models.py:13 | `Chat.objects.all()` holds exactly the stored chats, in strictly decreasing `created_at` |
| Store.Tables.AllMessages | apichat/messenger/models.py:37 | `Message.objects.all()` holds exactly the stored messages, in strictly decreasing `date_sent` |
| Store.Initial | apichat/api/tests/test_viewsets.py:11-29 | a database with only accounts is valid, has those users, and lists no chats, no messages and no images |
| Store.NextChat | apichat/api/serializers.py:117 | definition of the row `Chat.objects.create` inserts: the next chat id, the given participants and the clock as `created_at`. `AddChatKeepsValid` states that its id is fresh |
| Store.AddChat | apichat/api/serializers.py:117 | definition of the insertion of `NextChat`. `AddChatKeepsValid` states that it keeps the database valid and rewrites no timestamp, `AddChatHeadsListing` that the chat heads the listing |
| Store.AddChatKeepsValid | apichat/messenger/models.py:5-8 | a chat between existing users gets a fresh id, keeps the database valid and rewrites no existing timestamp |
| Store.AddChatHeadsListing | apichat/messenger/models.py:13 | a created chat comes first in the chat listing, followed by the chats listed before |
| Store.NextMessage | apichat/api/serializers.py:50-54 | definition of the row `Message.objects.create` inserts: the next message id, chat, author and text, the clock as `date_sent`, unread and without reactions. `AddMessageKeepsValid` states that its id is fresh |
| Store.AddMessage | apichat/api/serializers.py:50-54 | definition of the insertion of `NextMessage`. `AddMessageKeepsValid` states that it keeps the database valid, `AddMessageHeadsListing` that the message heads the listing, `MessagesCountAfterPost` that its chat counts one more |
| Store.AddMessageKeepsValid | apichat/messenger/models.py:19-34 | a message in an existing chat by an existing user gets a fresh id, keeps the database valid and rewrites no timestamp |
| Store.AddMessageHeadsListing | apichat/messenger/models.py:37 | a created message comes first in the message listing, and the chat listing is unchanged |
| Store.AddImage | apichat/api/serializers.py:57 | definition of `Image.objects.create`: one row under the next image id linked to the message. `AddImageKeepsValid` states that it keeps the database valid, `WithImagesRows` what the rows of a post are |
| Store.SaveMessage | apichat/api/views.py:147 | definition of `serializer.save()` on the stored row. `SaveMessageKeepsValid` states when it keeps the database valid and its timestamps |
| Store.AddImageKeepsValid | apichat/messenger/models.py:45-47 | an image of an existing message gets a fresh id and keeps the database valid |
| Store.SaveMessageKeepsValid | apichat/messenger/models.py:31 | saving a message keeps the database valid and keeps every `created_at` and `date_sent`, given that it keeps chat, author and date and that its likes and dislikes name users |
| Store.RemoveMessage | apichat/messenger/models.py:46 | deleting a message removes exactly that message and exactly its images; every other row stays as it was |
| Store.RemoveMessageKeepsValid | apichat/messenger/models.py:46 | the cascade leaves a valid database with timestamps kept |
| Store.RemoveChat | apichat/messenger/models.py:20-24 | deleting a chat removes exactly that chat, exactly its messages and exactly those messages' images; the other rows stay as they were |
| Store.RemoveChatKeepsValid | apichat/messenger/models.py:20-24 | the chat cascade leaves a valid database with timestamps kept |
| Store.RemoveUser | apichat/messenger/models.py:6-7 | deleting a user removes exactly: the chats they take part in; the messages of those chats and the messages they wrote; the images of removed messages; their likes and dislikes on the messages that remain. The remaining users, chats and images keep their values |
| Store.WithoutReactionsOf | apichat/messenger/models.py:33-34 | definition of the row a message keeps when a user is deleted: the many-to-many rows of that user go. `RemoveUser` states that every remaining message is this of its old row |
| Store.RemoveUserKeepsValid | apichat/messenger/models.py:25-34 | the user cascade leaves a valid database with timestamps kept |
| Store.Database.constructor | apichat/api/tests/test_viewsets.py:11-29 | the database starts valid, as `Initial` of the given accounts |
| Store.Database.InsertChat | apichat/api/serializers.py:117 | the new tables are `AddChat` of the old ones, and the returned chat is the one inserted, under an id not taken before |
| Store.Database.InsertMessage | apichat/api/serializers.py:50-54 | the new tables are `AddMessage` of the old ones, and the returned message is the one inserted: unread, with no reactions, under a fresh id |
| Store.Database.InsertImage | apichat/api/serializers.py:57 | if the picture is stored, one image row is added; otherwise nothing changes |
| Store.Database.Save | apichat/api/views.py:147 | the new tables are `SaveMessage` of the old ones, with validity and timestamps kept |
| Store.Database.DeleteMessage | apichat/api/views.py:130 | the new tables are `RemoveMessage` of the old ones |
| Store.Database.DeleteChat | apichat/messenger/models.py:20-24 | the new tables are `RemoveChat` of the old ones |
| Store.Database.DeleteUser | apichat/messenger/models.py:6-7 | the new tables are `RemoveUser` of the old ones |
| Store.Database.Rollback | apichat/api/serializers.py:41 | a failed transaction restores the message and image tables it started with |
| Responses.StatusOf | apichat/api/views.py:123-148 | validation errors answer 400, lookups that fail 404, refusals 403, failed transactions 500, each iff |
| Filters.FilterUsername | apichat/api/custom_filters.py:22-28 | a chat is kept iff the sender's or the recipient's username contains the value case-insensitively; the result is a subsequence of the input |
| Filters.FilterFirstName | apichat/api/custom_filters.py:30-36 | the same rule on first names |
| Filters.FilterLastName | apichat/api/custom_filters.py:38-44 | the same rule on last names |
| Filters.ApplyChatFilter | apichat/api/custom_filters.py:8-20 | a chat survives the filter set iff it matches every given parameter; the set never adds or reorders chats, and with no parameters it changes nothing |
| Filters.ChatFilterMatchesPartially | apichat/api/custom_filters.py:9-16 | although the filters are declared `iexact`, a chat with user "user1" passes the username filter "USER" |
| Filters.MessageFilter | apichat/api/custom_filters.py:47-54 | a message is kept iff its text contains `text` and its author's username contains `author`, case-insensitively, for the parameters that are given; order is kept |
| Filters.MessageFilterIsLooserThanExactAuthor | apichat/api/custom_filters.py:50 | every exact author match passes `MessageFilter`, and "USER" passes it for author "user1". The listing at views.py:88 uses the exact match instead |
| Filters.UserFilter | apichat/api/custom_filters.py:57-65 | a user is kept iff each given parameter is contained case-insensitively in its own field; order is kept, and with no parameters nothing changes |
| Serializers.Validate | apichat/api/serializers.py:94-111 | success iff the recipient is not the requester and exists; a self-chat is refused with the self-chat reason and an unknown recipient with its own; on success the requester is the sender |
| Serializers.ValidateChat | apichat/api/serializers.py:80-111 | success iff a recipient is given, exists and differs from the requester; every failure is a validation error |
| Serializers.CreateChat | apichat/api/serializers.py:113-118 | exactly one chat is added, under a fresh id, with the validated sender and recipient |
| Serializers.MessagesCount | apichat/api/serializers.py:75-77 | `messages_count` is the number of stored messages of the chat |
| Serializers.RepresentChat | apichat/api/serializers.py:66-77 | `ChatSerializer`, which `to_representation` returns, renders the stored chat: its id and `created_at`, the stored rows of its sender and recipient, and the count of its stored messages |
| Serializers.MessagesCountAfterPost | apichat/api/serializers.py:75-77 | posting to a chat raises its count by one and leaves every other chat's count unchanged |
| Serializers.GetChat | apichat/api/serializers.py:60-63 | the result is the message's chat id when that chat exists, and is always that id for a stored message |
| Serializers.WithImages | apichat/api/serializers.py:55-57 | inserting images changes only the image table, the image counter and the clock; the counter advances by the number of pictures |
| Serializers.WithImagesKeepsValid | apichat/api/serializers.py:55-57 | inserting the images of an existing message keeps the database valid |
| Serializers.WithImagesRows | apichat/api/serializers.py:55-57 | exactly one row per picture is added, in order, under consecutive fresh ids and linked to the message; old rows stay |
| Serializers.ImagesOfNewMessage | apichat/api/serializers.py:55-57 | a new message ends with exactly as many image rows as pictures supplied: the rows with the new ids |
| Serializers.InsertImages | apichat/api/serializers.py:55-57 | the loop inserts all images, or stops at the one whose write fails; the tables are `WithImages` of what was inserted |
| Serializers.CreateMessage | apichat/api/serializers.py:41-58 | without a chat, a validation error and no change; otherwise it returns the new message (requester as author, the given text, unread) with one image row per picture; if an image fails, a server error and the message and image tables as before |
| Serializers.ValidateMessage | apichat/api/serializers.py:32-39 | success iff the text is present (unless partial) and non-empty, and likes and dislikes name existing users; the data passes through unchanged |
| Serializers.ApplyUpdate | apichat/api/views.py:141-147 | each field given replaces the stored one, and each field left out keeps its stored value; id, chat, author and `date_sent` never change |
| Serializers.LikesAndDislikesMayOverlap | apichat/messenger/models.py:33-34 | one user may be both in `likes` and in `dislikes` of a message |
| Views.GetQueryset | apichat/api/views.py:31-36 | exactly the chats where the requester is sender or recipient, newest first |
| Views.ListChats | apichat/api/views.py:28-36 | exactly the requester's chats that pass `ChatFilter`, newest first |
| Views.FindById | apichat/api/views.py:49 | the lookup finds a row of the queryset with the key, or reports that no row has it |
| Views.GetObject | apichat/api/views.py:44-53 | success iff the chat exists, the requester takes part and it passes the filter; every failure is not found, so the permission-denied branch never fires |
| Views.Retrieve | apichat/api/views.py:44-53 | succeeds exactly when `get_object` does and renders the stored chat: its id and `created_at`, its sender's and recipient's rows and its message count; otherwise not found |
| Views.ChatMessages | apichat/api/views.py:84 | exactly the stored messages of the chat, newest first |
| Views.AuthorIs | apichat/api/views.py:88 | definition of `author__username=value`: an exact, case-sensitive match on the author's username. `MessagesQuery` and `MessageFilterIsLooserThanExactAuthor` state what it keeps and how it differs from `MessageFilter` |
| Views.MessagesQuery | apichat/api/views.py:84-88 | exactly the chat's messages whose text contains the given `text` case-insensitively and whose author's username equals the given `author`; newest first; with no filters, all of the chat's messages |
| Views.ListMessages | apichat/api/views.py:79-94 | succeeds exactly when `get_object` does and lists exactly the filtered messages of that chat, newest first; otherwise not found |
| Views.GetMessage | apichat/api/views.py:119-120 | a message is found iff the chat is accessible and the message belongs to that chat; one from another chat is not found |
| Views.ChatMessagesAfterPost | apichat/api/views.py:84 | a posted message comes first in its chat's message listing, followed by the messages listed before |
| Views.NewChatHasNoMessages | apichat/api/serializers.py:75-77 | a new chat lists no messages and counts zero |
| Views.UnfilteredListing | apichat/api/views.py:84-94 | with no filters, a participant's listing is all of the chat's messages |
| Views.ListingAfterPost | apichat/api/views.py:89-107 | after a post, every participant's unfiltered listing shows the new message first, then the earlier ones |
| Views.Create | apichat/api/views.py:55-66 | 201, one new chat with the requester as sender, the clock before the request as `created_at` and zero messages, iff validation passes; otherwise 400 and no change |
| Views.PostMessage | apichat/api/views.py:96-107 | 404 and no change for an inaccessible chat; 400 and no change for invalid data. 201 iff the chat is accessible, the data is valid and every picture is stored, and then the message is in that chat, by the requester, with its images. When the chat is accessible and the data valid but a picture cannot be written, the answer is 500 with the user, chat, message and image tables as before |
| Views.DeleteMessage | apichat/api/views.py:124-134 | 404 when the message is not found through the chat; 403 and no change for a non-author; 204 iff the author asks, and then the message and its images are removed |
| Views.UpdateMessage | apichat/api/views.py:135-148 | 404 or 403 as for delete, with no change; invalid data from the author gives 400 with a validation error and no change; any failure leaves the tables alone. 200 iff the author sends valid data, and then the stored message is `ApplyUpdate` of the old one, with PATCH partial and PUT requiring text |
| BubbleSorting.Bubbled | apichat/api/tests.py:29-31 | definition of one comparison of the inner loop, swapping out-of-order neighbours. `BubbledFacts` states what it moves, keeps and permutes |
| BubbleSorting.BubbledFacts | apichat/api/tests.py:29-31 | one comparison carries the largest of the prefix one step right, permutes, and leaves the tail and the split point alone |
| BubbleSorting.Swap | apichat/api/tests.py:30-31 | the two positions exchange their values |
| BubbleSorting.BubblePass | apichat/api/tests.py:28-31 | the inner loop permutes the list, puts the largest of `a[0..last]` at `last`, and leaves everything after `last` alone |
| BubbleSorting.PassGrowsSortedSuffix | apichat/api/tests.py:27-31 | after the pass ending at `last`, the elements from `last` on are the largest, in final order |
| BubbleSorting.BubbleSort | apichat/api/tests.py:25-32 | in place: the same list is returned, sorted, as a permutation of its old contents |
| MergeSorting.MergedFrom | apichat/api/tests.py:41-58 | the merge from positions `l`, `r` has exactly as many elements as remain in both halves |
| MergeSorting.Merged | apichat/api/tests.py:41 | the merge fills exactly `len(left) + len(right)` slots |
| MergeSorting.MergedFromPermutation | apichat/api/tests.py:43-58 | the merge from `l`, `r` is a permutation of what remains of both halves |
| MergeSorting.MergedPermutation | apichat/api/tests.py:41-58 | the merge is a permutation of both halves together |
| MergeSorting.MergedFromBounded | apichat/api/tests.py:43-58 | a lower bound on what remains of both halves bounds every merged element |
| MergeSorting.MergedFromSorted | apichat/api/tests.py:43-58 | two sorted halves merge into a sorted sequence |
| MergeSorting.MergeSortOf | apichat/api/tests.py:35-40 | definition of `merge_sort`'s recursion on the two halves `[0:len//2]` and `[len//2:]`; short lists are themselves. `MergeSortOfSorts` states that it sorts and permutes, `MergeSort` that the loops compute it |
| MergeSorting.MergeSortOfSorts | apichat/api/tests.py:35-59 | `merge_sort`'s result is sorted and a permutation of its input |
| MergeSorting.TakeLeft | apichat/api/tests.py:44-46 | taking the left head on `<=` (ties included) extends the merged prefix |
| MergeSorting.TakeRight | apichat/api/tests.py:47-49 | taking the right head when it is smaller extends the merged prefix |
| MergeSorting.Merge | apichat/api/tests.py:41-58 | the three loops fill a fresh array of `len(left) + len(right)` slots with exactly `Merged(left, right)` |
| MergeSorting.MergeSort | apichat/api/tests.py:35-59 | a list shorter than two comes back as itself; otherwise the result is `MergeSortOf` of the input, so it is sorted and a permutation; the input is not changed |
| Searching.FirstRise | apichat/api/tests.py:76-78 | the downward loop returns the highest position at or below `index` whose left neighbour is smaller, or -1 when no position rises |
| Searching.BinarySearch | apichat/api/tests.py:68-81 | the result is -1 or an index; an empty range gives -1; on a sorted array whose elements outside `[left, right)` are known not to be the value, it is the leftmost occurrence, or -1 when the value is absent; terminates on `right - left` |
| Searching.NothingOutsideBrackets | apichat/api/tests.py:70-71 | when the range is empty and nothing outside it holds the value, the value does not occur |
| Searching.NarrowLeft | apichat/api/tests.py:79-80 | in a sorted array, a middle above the value means the value can only lie left of the middle |
| Searching.NarrowRight | apichat/api/tests.py:81 | in a sorted array, a middle below the value means the value can only lie right of the middle |
| Searching.SortedRiseIsLeftmost | apichat/api/tests.py:75-78 | in a sorted array where the middle holds the value and `a[0]` does not, the rise the loop finds is the leftmost occurrence |
| Searching.SortedWithoutRise | apichat/api/tests.py:75-81 | when the loop finds no rise, the array cannot be sorted, so falling through to the right half never matters on sorted input |
| Searching.SearchAll | apichat/api/tests.py:63-65 | `binary_search(a, x, 0, len(a))` on a sorted list returns the leftmost index of `x`, or -1 |
| Searching.SearchExample | apichat/api/tests.py:62-84 | the search for 3 in the sorted example list answers 4, the leftmost 3 |
| Scenarios.Accounts | apichat/api/tests/test_viewsets.py:11-29 | the three test accounts form a valid user table |
| Scenarios.Start | apichat/api/tests/test_viewsets.py:11-29 | the test database starts valid with those accounts and no chats |
| Scenarios.CreateChatStatuses | apichat/api/tests/test_viewsets.py:41-61 | for the test's request sequence only the self-chat is refused; the repeated and reversed pairs are accepted, so three chats exist before the last request |
| Scenarios.NewChatRetrievedByParticipantsOnly | apichat/api/tests/test_viewsets.py:78-95 | a new chat is retrieved iff the requester is one of its two participants; anyone else gets not found |
| Scenarios.RetrieveChatStatuses | apichat/api/tests/test_viewsets.py:88-95 | user1 and user2 retrieve their chat, and user3 gets not found |
| Scenarios.FirstPostAlone | apichat/api/tests/test_viewsets.py:107-112 | the first message posted to a new chat is the only message listed for it |
| Scenarios.ConversationListedNewestFirst | apichat/api/tests/test_viewsets.py:97-132 | after a post by the sender and a reply by the recipient, the sender's listing is the reply, then the first message |
| Scenarios.SendMessageListing | apichat/api/tests/test_viewsets.py:121-132 | the listing holds exactly "Hi!" by user2, then "Hello" by user1 |

## Left out

- Pagination (`apichat/api/pagination.py`): listings are the whole filtered queryset. Page sizes come from a constants module that is not part of this model.
- Routing (`apichat/api/urls.py`) and the URL tests are framework configuration.
- `UserViewSet`, `UserSerializer`, `ImageSerializer` and `Base64ImageField` are left out. Pictures are opaque byte strings. The flag per picture (`InsertImage`'s `stored`, `failAt` in `InsertImages`/`CreateMessage`) models only a failing write in `Image.objects.create`, the 500 with rollback. A picture that `Base64ImageField` cannot decode is rejected during `is_valid` with a 400 before anything is written; that validation is not modelled.
- Authentication and the 401 for anonymous requests are not modelled; every request has a known user.
- Duplicate chats: the view tests expect 400 when a pair of users opens a second chat (test_viewsets.py:53-58). Neither `ChatCreateSerializer.validate` nor the `Chat` model enforces this, so the model accepts the request, as the code does; `Scenarios.CreateChatStatuses` shows it. No uniqueness of chats is stated.
- Toggling likes and dislikes: no code does it. They change only through a PUT/PATCH of the whole sets.
- Images sent with a PUT/PATCH and nested writes of `images` are not modelled. `UpdateMessage` changes only text, `is_read`, likes and dislikes.
- DRF's field-level details beyond required, non-blank text and existing user keys are not modelled: whitespace trimming, length limits and type coercion.
- Filters.Given: django-filter cleans each `CharFilter` value with a form field that strips surrounding whitespace, so a blank value such as a single space switches a filter off and ` bob ` filters as `bob`. The model takes the values as given, without stripping.
- The inherited `update`, `partial_update` and `destroy` of chats (from `ModelViewSet`) are outside the named core. Chat deletion appears only as the `RemoveChat` cascade.
- Case folding is ASCII only (`Text.Lower`). The database's Unicode folding is not modelled.
- Time: the wall clock is a counter that every insertion advances. Concurrency is not modelled; `@atomic` is modelled as all-or-nothing on the message and image tables.
- Store.Database.Rollback: the model's choice is to leave the id counters and the clock advanced after a rollback. Whether a backend reuses ids after a rolled-back transaction depends on the backend. `Rollback` itself keeps them at their values before the rollback; the request-level contracts `Serializers.CreateMessage` and `Views.PostMessage` leave open what they are after a failed post.
- `get_serializer_class`: its tuple comparison is always false. Both serializers render a chat the same way through `to_representation`, so the model has one rendering, `RepresentChat`.
- The `except User.DoesNotExist` branch of `ChatCreateSerializer.validate` cannot be reached after the `PrimaryKeyRelatedField` check. `Serializers.Validate` still models it, and `ValidateChat` checks the field first.
- The `message_id` URL pattern `\d+` is modelled by message ids being natural numbers.
- `time_decorator` (`print`, `time.sleep`) and the import-time script of `apichat/api/tests.py` are not modelled. The script's search appears only as the lemma `Searching.SearchExample`.
- MergeSorting.Merge: the halves are taken as values, not lists, since the loops only read them. Taking the left element on ties cannot be observed on integers. It is stated as the `<=` test in `TakeLeft`, not as a stability property.
- Searching.BinarySearch: its leftmost-index guarantee is stated for sorted arrays only, which is the source's own precondition. On unsorted arrays the model follows the same branches but promises only an index or -1.
