/**
 * The record shapes of the three Convex tables `users`, `conversations` and
 * `messages` (convex/schema.ts). A document's `_id` is its position in its table,
 * which also stands for `_creationTime`: tables are append-only in this model.
 */
module Schema {
  import opened Wrappers

  type UserId = nat
  type ConversationId = nat
  type MessageId = nat

  /** The untyped payload `v.any()` that the schema allows for `lastRead`. */
  datatype Json =
    | JNull
    | JBool(b: bool)
    | JNumber(n: int)
    | JString(s: string)
    | JArray(items: seq<Json>)
    | JObject(fields: map<string, Json>)

  /** A row of `users`: four required strings, an optional heartbeat time and an optional typing target. */
  datatype User = User(
    name: string,
    email: string,
    image: string,
    clerkId: string,
    lastSeen: Option<int>,
    isTypingId: Option<UserId>)

  /** A row of `conversations`: two participants in the order the creating call gave them. */
  datatype Conversation = Conversation(
    participantOne: UserId,
    participantTwo: UserId,
    lastRead: Option<Json>)

  /** One entry of a message's `reactions` array. */
  datatype Reaction = Reaction(userId: UserId, emoji: string)

  /** A row of `messages`; the three trailing fields are optional in the schema. */
  datatype Message = Message(
    conversationId: ConversationId,
    senderId: UserId,
    content: string,
    isDeleted: Option<bool>,
    deletedAt: Option<int>,
    reactions: Option<seq<Reaction>>)

  /** The user record `syncUser` inserts: the four given fields and no optional ones. */
  function NewUser(name: string, email: string, clerkId: string, image: string): (u: User)
    ensures u.name == name && u.email == email && u.clerkId == clerkId && u.image == image
    ensures u.lastSeen.None? && u.isTypingId.None?
  {
    User(name, email, image, clerkId, None, None)
  }

  /** The conversation record `send` inserts: sender first, receiver second, never read. */
  function NewConversation(sender: UserId, receiver: UserId): (c: Conversation)
    ensures c.participantOne == sender && c.participantTwo == receiver && c.lastRead.None?
  {
    Conversation(sender, receiver, None)
  }

  /** The message record `send` inserts: not deleted and without reactions. */
  function NewMessage(conversationId: ConversationId, senderId: UserId, content: string): (m: Message)
    ensures m.conversationId == conversationId && m.senderId == senderId && m.content == content
    ensures m.isDeleted.None? && m.deletedAt.None? && m.reactions.None?
  {
    Message(conversationId, senderId, content, None, None, None)
  }
}
