# Messaging backend model

A Dafny model of the server side of a one-to-one messaging app built on Convex.
The backend has three tables, `users`, `conversations` and `messages`. It offers
four handlers: the `syncUser` upsert and the `getUsers` search (convex/users.ts),
and the `send` mutation and the `getMessages` query (convex/messages.ts). The
user list's online indicator (client/src/app/users/page.tsx) is modelled too.

Modules, one per source file, plus two small ones:

- `Wrappers`: `Option`, `Result` and `Outcome`. A handler that throws gives `Failure`/`Fail`.
- `Schema` (convex/schema.ts:4-35): one datatype per table row, plus `Reaction`. An
  optional field is an `Option`. `lastRead` (`v.any()`) is a small `Json` value.
  `NewUser`, `NewConversation` and `NewMessage` build the records the handlers insert.
  They leave every optional field absent.
- `Database`: the class `Store`, whose three fields are the tables. It also has
  Convex's `.first()` and `.unique()`, and one generic index scan, `Scan`. The
  `by_clerkId` and `by_conversation` indexes are that scan with their own key test.
  The third declared index, `by_participants`, is never queried: both conversation
  lookups scan the whole table with `.filter`. It constrains nothing and is not modelled.
  A document's `_id` is its position in its table. Tables only grow in this model,
  so that position is a fresh counter and also stands for `_creationTime`.
- `Users`: the `by_clerkId` lookups, `syncUser` and `getUsers`.
- `Messages`: finding the caller, conversation lookup-or-create, `send` and
  `getMessages`.
- `Presence`: the `isOnline` expression and its label.

The two mutations are methods. Each takes the `Store` (Convex's `ctx.db`) and
`modifies` it. Each is proved against a function on table contents: `Upsert` for
`syncUser`, `Resolve` plus one appended message for `send`. The lemmas are stated
about those functions. The queries are functions of the table contents, so they
cannot change the store. The caller's identity (`ctx.auth.getUserIdentity()`)
is passed in as an optional `subject` string.

Main results:

- `send` never creates a second conversation for an unordered pair:
  `ResolveKeepsPairsUnique`, and the `UniquePairs` clause of `Send`.
- `syncUser` never creates a second user for a `clerkId` (`UpsertKeepsClerkIdsUnique`).
  Calling it twice with the same arguments is the same as calling it once (`UpsertIdempotent`).
- `getMessages` is symmetric (`GetMessagesSymmetric`). After `send`, both
  participants' listings end with the new message (`SendThenGetMessages`).

Behaviour of the code that a reader might not expect, and that the model keeps:

- `send` does not reject empty or blank content. Only the chat window checks for
  blank input (client/src/components/ChatModal.tsx:26).
- Conversations are not stored in a canonical order. The sender goes first, and
  the lookup accepts either order.
- `syncUser` does not check the caller's identity.
- `receiverId` is not checked against the users table. `v.id("users")` checks only
  the id's form, so `send` can open a conversation with any id, the sender's own included.
- `.unique()` on `by_clerkId` throws when several users share the caller's `clerkId`.
  The model turns this into the error `DuplicateUsers`: `send` fails with it, and
  `getMessages` returns `Failure`. `UniqueClerkIdsNeverMany` shows that this cannot
  happen while `syncUser`'s invariant holds.

## Model

| member | source | states |
|---|---|---|
| Schema.NewUser | convex/users.ts:28-33 | the inserted user carries exactly the given name, email, clerkId and image, with no `lastSeen` and no `isTypingId` |
| Schema.NewConversation | convex/messages.ts:33-36 | the inserted conversation has the sender as `participantOne`, the receiver as `participantTwo`, and no `lastRead` |
| Schema.NewMessage | convex/messages.ts:39-43 | the inserted message carries the conversation, the sender and the content as given, and none of `isDeleted`, `deletedAt`, `reactions` |
| Database.First | convex/users.ts:16 | `.first()` is absent iff nothing matched; otherwise it is the first matched id in query order, hence the oldest one when the ids are in creation order |
| Database.UniqueOf | convex/messages.ts:16 | `.unique()` gives no row iff nothing matched, one row iff exactly one id matched (and then that id), and otherwise the throwing case |
| Database.Scan | convex/schema.ts:12-34 | an index scan returns exactly the ids of the rows whose key matches, strictly ascending (creation order) |
| Database.ScanAppend | convex/schema.ts:34 | appending a row extends a scan by the new id exactly when the row matches |
| Database.ScanNone | convex/schema.ts:34 | a key that no row has scans empty |
| Database.ClerkIdIndexAdmitsDuplicates | convex/schema.ts:12 | the `by_clerkId` index is no uniqueness constraint: two users with one `clerkId` make `.unique()` see several rows |
| Users.FirstByClerkId | convex/users.ts:13-16 | `.first()` on `by_clerkId` is absent iff no user has the `clerkId`; otherwise it is the lowest-positioned such user |
| Users.UniqueByClerkId | convex/messages.ts:13-16 | `.unique()` gives no row iff none matches, the single match when there is one, and "several" iff two users share the `clerkId` |
| Users.UniqueClerkIdsNeverMany | convex/messages.ts:13-16 | while `clerkId`s are unique, the caller lookup never throws for duplicates |
| Users.Upsert | convex/users.ts:13-33 | an existing user keeps its id, email, clerkId, lastSeen and isTypingId and gets the new name and image; otherwise exactly one user with the four fields is appended at a fresh id; all other users are untouched; the id returned is the first user with that clerkId afterwards |
| Users.UpsertKeepsClerkIdsUnique | convex/users.ts:18-33 | sequential `syncUser` calls keep at most one user per `clerkId` |
| Users.UpsertIdempotent | convex/users.ts:13-33 | a second identical `syncUser` leaves the table as the first one left it and returns the same id |
| Users.SyncUser | convex/users.ts:4-35 | the mutation sets the users table and its result as `Upsert` says, leaves the other tables alone and keeps `clerkId`s unique |
| Users.LowerChar | convex/users.ts:51 | ASCII `toLowerCase` of a character: an upper-case letter gains 32 code points, becoming its lower-case letter, any other character is kept, and the result is never upper-case |
| Users.Lower | convex/users.ts:51 | `toLowerCase` keeps the length, lower-cases each character in place, and leaves no upper-case ASCII letter |
| Users.Includes | convex/users.ts:51 | `includes` holds iff the term occurs at some position of the string (the empty term always does) |
| Users.IncludesShift | convex/users.ts:51 | when the term is not a prefix, it occurs in the string iff it occurs in the string without its first character |
| Users.Listed | convex/users.ts:51-53 | a user is kept iff the lower-cased search term occurs somewhere in the lower-cased name and the user's clerkId is not the caller's |
| Users.FilterUsers | convex/users.ts:48-54 | the filter keeps exactly the users whose lower-cased name contains the lower-cased term and whose clerkId is not the caller's, in table order, each with its id |
| Users.GetUsers | convex/users.ts:37-56 | no identity gives `[]`; otherwise exactly the matching users other than the caller, in table order, and never the caller |
| Users.EmptySearchListsEveryoneElse | convex/users.ts:50-54 | with an empty search term a user is listed iff it is not the caller |
| Messages.CurrentUser | convex/messages.ts:10-18 | no identity is `Unauthorized`; no user with the subject's clerkId is `UserNotFound`; several are `DuplicateUsers`; otherwise the caller's id |
| Messages.IsPairUnordered | convex/messages.ts:23-27 | the pair test holds iff the conversation's two participants and the two given users are the same unordered pair (equal as multisets) |
| Messages.FindConversation | convex/messages.ts:21-28 | the lookup is absent iff no conversation has the pair in either order, else it is the first such conversation |
| Messages.FindConversationSymmetric | convex/messages.ts:23-27 | the lookup for (a, b) and for (b, a) find the same conversation |
| Messages.Resolve | convex/messages.ts:31-36 | an existing conversation of the pair is reused and no row is added; otherwise exactly one conversation (sender first, receiver second) is appended; the result is the first conversation of the pair afterwards |
| Messages.ResolveKeepsPairsUnique | convex/messages.ts:31-36 | sequential sends keep at most one conversation per unordered pair |
| Messages.ResolveIdempotent | convex/messages.ts:21-36 | once resolved, the pair resolves to the same conversation from either side without inserting |
| Messages.PairsIndexAdmitsDuplicates | convex/schema.ts:14-18 | nothing in the schema keeps pairs unique (the declared `by_participants` index is unused): a table may hold one pair twice, in either order |
| Messages.Annotate | convex/messages.ts:77-80 | the `map` keeps the scanned messages' number and order; each view carries the message's id and fields and `isMine == (senderId == caller)` |
| Messages.AnnotateAppend | convex/messages.ts:77-80 | annotating one more, newly appended message adds exactly its view at the end |
| Messages.GetMessages | convex/messages.ts:47-82 | `[]` without identity, without a user, or without a conversation; an error only for duplicate users; otherwise exactly the conversation's messages in creation order, each with `isMine == (senderId == caller)` |
| Messages.GetMessagesSymmetric | convex/messages.ts:60-80 | A's view of B and B's view of A list the same messages; `isMine` is flipped for the messages either of them sent |
| Messages.Send | convex/messages.ts:4-45 | an identity or lookup failure throws and changes nothing; otherwise the conversation is resolved, one message with the caller, the resolved id and the content verbatim is appended, the users are untouched, and pair uniqueness and message-to-conversation references are kept |
| Messages.SendThenGetMessages | convex/messages.ts:31-80 | after a send, each participant's listing is the old listing plus the new message, marked as theirs only for the sender |
| Presence.IsOnline | client/src/app/users/page.tsx:51-52 | online only with a present, nonzero `lastSeen`, and then iff `now < lastSeen + 2000` |
| Presence.StatusLabel | client/src/app/users/page.tsx:76 | the label is "Online" iff the user is online and "Offline" otherwise |
| Presence.NeverSeenIsOffline | client/src/app/users/page.tsx:51-52 | a user without `lastSeen` is offline |
| Presence.ZeroLastSeenIsOffline | client/src/app/users/page.tsx:52 | a `lastSeen` of 0 is falsy, so the user is offline |
| Presence.OnlineWithinWindow | client/src/app/users/page.tsx:52 | with a nonzero `lastSeen`, online iff `now - lastSeen < 2000` |
| Presence.OfflineAtWindowEnd | client/src/app/users/page.tsx:52 | the window is half-open: exactly 2000 ms after the heartbeat the user is offline |
| Presence.OfflineStaysOffline | client/src/app/users/page.tsx:52 | for a fixed `lastSeen`, offline at one time means offline at every later time |

## Left out

- Concurrency and transactions: each handler is one atomic step. Convex serializes mutations, so races between `send` or `syncUser` calls are not modelled.
- Soft delete, reaction toggling, marking read, unread counts, typing updates and the presence heartbeat: no handler for them exists in convex/messages.ts or convex/users.ts. Their schema fields (`isDeleted`, `deletedAt`, `reactions`, `lastRead`, `lastSeen`, `isTypingId`) are kept, with no operations on them. client/src/hooks/usePresence.ts calls `users.updatePresence`, which convex/users.ts does not define.
- Authentication internals: the identity is an optional subject string passed in.
- Convex id generation and `_creationTime`: an id is a position in its own table. Ids of different tables are all `nat`, so the type system does not keep them apart.
- Rendering, React state, hooks and the two-second `setInterval` of the user list; the blank-input guard of the chat window.
- Users.Lower: `toLowerCase` is modelled as ASCII lower-casing only; Unicode case mapping is not modelled.
- `deletedAt` and the numbers inside `lastRead`: `v.number()` is a float64 and is modelled as an integer. `Json` does not model the Int64, bytes and id values that `v.any()` also admits. No modelled operation reads these fields.
- Presence.IsOnline: `Date.now()` and `lastSeen` are integer milliseconds, not JavaScript floating-point numbers, so NaN and fractional times are not modelled.
- The `console.log` call in `getUsers`.
