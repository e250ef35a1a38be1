/**
 * The message handlers (convex/messages.ts): `send` resolves the conversation of
 * the caller and the receiver, creating it on first contact, and appends a
 * message; `getMessages` lists one conversation's messages, oldest first, each
 * marked with whether the caller sent it.
 */
module Messages {
  import opened Wrappers
  import opened Schema
  import opened Database
  import opened Users

  /** Why a handler throws. */
  datatype Error =
    | Unauthorized     // no identity: "Unauthorized"
    | UserNotFound     // no user with the caller's clerkId: "User not found"
    | DuplicateUsers   // `.unique()` matched several users with the caller's clerkId

  /** The caller of `send` or `getMessages`, looked up by `clerkId` with `.unique()`. */
  function CurrentUser(subject: Option<string>, users: seq<User>): (r: Result<UserId, Error>)
    ensures subject.None? <==> r == Failure(Unauthorized)
    ensures r.Success? ==> r.value < |users| && users[r.value].clerkId == subject.value
    ensures subject.Some? ==> (r == Failure(UserNotFound) <==> UniqueByClerkId(users, subject.value).NoRow?)
    ensures subject.Some? ==> (r == Failure(DuplicateUsers) <==> UniqueByClerkId(users, subject.value).ManyRows?)
  {
    match subject
    case None => Failure(Unauthorized)
    case Some(clerkId) =>
      match UniqueByClerkId(users, clerkId)
      case NoRow => Failure(UserNotFound)
      case ManyRows => Failure(DuplicateUsers)
      case OneRow(id) => Success(id)
  }

  /** The conversation is between `a` and `b`, in either order. */
  predicate IsPair(c: Conversation, a: UserId, b: UserId)
  {
    (c.participantOne == a && c.participantTwo == b) || (c.participantOne == b && c.participantTwo == a)
  }

  /** The pair test compares unordered pairs: the two participants as a multiset. */
  lemma IsPairUnordered(c: Conversation, a: UserId, b: UserId)
    ensures IsPair(c, a, b) <==> multiset{c.participantOne, c.participantTwo} == multiset{a, b}
  {
    var p, q := c.participantOne, c.participantTwo;
    if multiset{p, q} == multiset{a, b} {
      assert a in multiset{p, q};
      if a == p {
        assert multiset{p, q} - multiset{a} == multiset{q};
        assert multiset{a, b} - multiset{a} == multiset{b};
      } else {
        assert a == q;
        assert multiset{p, q} - multiset{a} == multiset{p};
        assert multiset{a, b} - multiset{a} == multiset{b};
      }
    }
  }

  /** At most one conversation per unordered pair of users. */
  ghost predicate UniquePairs(conversations: seq<Conversation>)
  {
    forall i, j :: 0 <= i < j < |conversations| ==>
      !IsPair(conversations[j], conversations[i].participantOne, conversations[i].participantTwo)
  }

  /**
   * Nothing in the schema keeps pairs unique: a conversations table may hold the
   * same pair twice, in either order. The declared `by_participants` index is never
   * queried (both lookups scan the whole table) and constrains nothing, so
   * uniqueness rests on `send`'s lookup-or-create alone.
   */
  lemma PairsIndexAdmitsDuplicates(a: UserId, b: UserId)
    ensures !UniquePairs([NewConversation(a, b), NewConversation(b, a)])
  {
    var t := [NewConversation(a, b), NewConversation(b, a)];
    assert IsPair(t[1], t[0].participantOne, t[0].participantTwo);
  }

  /** Every message belongs to a conversation of the table. */
  ghost predicate MessagesInConversations(conversations: seq<Conversation>, messages: seq<Message>)
  {
    forall i :: 0 <= i < |messages| ==> messages[i].conversationId < |conversations|
  }

  /** `.filter(pair in either order).first()` over the conversations table. */
  function FindConversation(conversations: seq<Conversation>, a: UserId, b: UserId): (r: Option<ConversationId>)
    ensures r.None? <==> forall i :: 0 <= i < |conversations| ==> !IsPair(conversations[i], a, b)
    ensures r.Some? ==> r.value < |conversations| && IsPair(conversations[r.value], a, b)
    ensures r.Some? ==> forall j :: 0 <= j < r.value ==> !IsPair(conversations[j], a, b)
  {
    if |conversations| == 0 then None
    else
      var n := |conversations| - 1;
      assert forall j :: 0 <= j < n ==> conversations[..n][j] == conversations[j];
      match FindConversation(conversations[..n], a, b)
      case Some(i) => Some(i)
      case None => if IsPair(conversations[n], a, b) then Some(n) else None
  }

  /** The lookup does not depend on which side of the pair asks. */
  lemma {:induction false} FindConversationSymmetric(conversations: seq<Conversation>, a: UserId, b: UserId)
    ensures FindConversation(conversations, a, b) == FindConversation(conversations, b, a)
  {
    if |conversations| > 0 {
      FindConversationSymmetric(conversations[..|conversations| - 1], a, b);
    }
  }

  /** The conversations table after `send`'s lookup-or-create, and the conversation it resolved. */
  datatype Resolved = Resolved(conversations: seq<Conversation>, id: ConversationId)

  /** Reuse the first conversation of the pair, or insert one with the sender first. */
  function Resolve(conversations: seq<Conversation>, sender: UserId, receiver: UserId): (r: Resolved)
    ensures r.id < |r.conversations| && IsPair(r.conversations[r.id], sender, receiver)
    ensures FindConversation(r.conversations, sender, receiver) == Some(r.id)
    ensures FindConversation(conversations, sender, receiver).Some? ==> r.conversations == conversations
    ensures FindConversation(conversations, sender, receiver).None? ==>
      && r.id == |conversations|
      && r.conversations == conversations + [NewConversation(sender, receiver)]
      && r.conversations[r.id].participantOne == sender
      && r.conversations[r.id].participantTwo == receiver
  {
    match FindConversation(conversations, sender, receiver)
    case Some(i) => Resolved(conversations, i)
    case None =>
      var r := conversations + [NewConversation(sender, receiver)];
      assert forall j :: 0 <= j < |conversations| ==> r[j] == conversations[j];
      Resolved(r, |conversations|)
  }

  /** Sequential sends never create a second conversation for a pair. */
  lemma ResolveKeepsPairsUnique(conversations: seq<Conversation>, sender: UserId, receiver: UserId)
    requires UniquePairs(conversations)
    ensures UniquePairs(Resolve(conversations, sender, receiver).conversations)
  {
    var r := Resolve(conversations, sender, receiver);
    if FindConversation(conversations, sender, receiver).None? {
      forall i, j | 0 <= i < j < |r.conversations|
        ensures !IsPair(r.conversations[j], r.conversations[i].participantOne, r.conversations[i].participantTwo)
      {
        if j == |conversations| {
          assert !IsPair(conversations[i], sender, receiver);
        }
      }
    }
  }

  /** Once resolved, the pair resolves to the same conversation from either side, with no insert. */
  lemma ResolveIdempotent(conversations: seq<Conversation>, a: UserId, b: UserId)
    ensures var r := Resolve(conversations, a, b);
            Resolve(r.conversations, a, b) == r && Resolve(r.conversations, b, a) == r
  {
    var r := Resolve(conversations, a, b);
    FindConversationSymmetric(r.conversations, a, b);
  }

  /** A message as `getMessages` returns it: the document plus the derived `isMine` flag. */
  datatype MessageView = MessageView(id: MessageId, message: Message, isMine: bool)

  /** `views` lists exactly the messages of `conversationId`, oldest first, marked for `me`. */
  ghost predicate ListsConversation(views: seq<MessageView>, messages: seq<Message>, conversationId: ConversationId, me: UserId)
  {
    && (forall k, l :: 0 <= k < l < |views| ==> views[k].id < views[l].id)
    && (forall k :: 0 <= k < |views| ==>
          && views[k].id < |messages|
          && views[k].message == messages[views[k].id]
          && views[k].message.conversationId == conversationId
          && views[k].isMine == (views[k].message.senderId == me))
    && (forall i :: 0 <= i < |messages| && messages[i].conversationId == conversationId ==>
          exists k :: 0 <= k < |views| && views[k].id == i)
  }

  /** `messages.map(m => ({...m, isMine: m.senderId === me}))` over an index scan. */
  function Annotate(messages: seq<Message>, ids: seq<MessageId>, me: UserId): (views: seq<MessageView>)
    requires forall k :: 0 <= k < |ids| ==> ids[k] < |messages|
    ensures |views| == |ids|
    ensures forall k :: 0 <= k < |ids| ==>
      views[k].id == ids[k] && views[k].message == messages[ids[k]] && views[k].isMine == (messages[ids[k]].senderId == me)
  {
    seq(|ids|, k requires 0 <= k < |ids| => MessageView(ids[k], messages[ids[k]], messages[ids[k]].senderId == me))
  }

  /** Annotating one more, newly appended message adds its view at the end. */
  lemma AnnotateAppend(messages: seq<Message>, m: Message, ids: seq<MessageId>, me: UserId)
    requires forall k :: 0 <= k < |ids| ==> ids[k] < |messages|
    ensures Annotate(messages + [m], ids + [|messages|], me)
         == Annotate(messages, ids, me) + [MessageView(|messages|, m, m.senderId == me)]
  {
    var after := Annotate(messages + [m], ids + [|messages|], me);
    var before := Annotate(messages, ids, me);
    forall k | 0 <= k < |ids|
      ensures after[k] == before[k]
    {
      assert (ids + [|messages|])[k] == ids[k];
      assert (messages + [m])[ids[k]] == messages[ids[k]];
    }
    assert after[|ids|] == MessageView(|messages|, m, m.senderId == me);
  }

  /** The `getMessages` query: the caller's conversation with `otherUserId`, or nothing. */
  function GetMessages(subject: Option<string>, otherUserId: UserId, users: seq<User>,
                       conversations: seq<Conversation>, messages: seq<Message>): (r: Result<seq<MessageView>, Error>)
    ensures r.Failure? <==> CurrentUser(subject, users) == Failure(DuplicateUsers)
    ensures r.Failure? ==> r.error == DuplicateUsers
    ensures CurrentUser(subject, users) in {Failure(Unauthorized), Failure(UserNotFound)} ==> r == Success([])
    ensures CurrentUser(subject, users).Success? ==>
      var me := CurrentUser(subject, users).value;
      match FindConversation(conversations, me, otherUserId)
      case None => r == Success([])
      case Some(c) => r.Success? && ListsConversation(r.value, messages, c, me)
  {
    match CurrentUser(subject, users)
    case Failure(e) => if e == DuplicateUsers then Failure(e) else Success([])
    case Success(me) =>
      match FindConversation(conversations, me, otherUserId)
      case None => Success([])
      case Some(c) =>
        var ids := ByConversation(messages, c);
        var views := Annotate(messages, ids, me);
        assert forall i :: 0 <= i < |messages| && messages[i].conversationId == c ==>
          exists k :: 0 <= k < |ids| && ids[k] == i && views[k].id == i;
        Success(views)
  }

  /** Both participants see the same messages of their conversation, each marked from their own side. */
  lemma GetMessagesSymmetric(users: seq<User>, conversations: seq<Conversation>, messages: seq<Message>,
                             subjectA: string, subjectB: string, a: UserId, b: UserId)
    requires CurrentUser(Some(subjectA), users) == Success(a)
    requires CurrentUser(Some(subjectB), users) == Success(b)
    ensures var ra := GetMessages(Some(subjectA), b, users, conversations, messages);
            var rb := GetMessages(Some(subjectB), a, users, conversations, messages);
            && ra.Success? && rb.Success? && |ra.value| == |rb.value|
            && forall k :: 0 <= k < |ra.value| ==>
                 && ra.value[k].id == rb.value[k].id
                 && ra.value[k].message == rb.value[k].message
                 && ra.value[k].isMine == (ra.value[k].message.senderId == a)
                 && rb.value[k].isMine == (rb.value[k].message.senderId == b)
                 && (a != b && ra.value[k].message.senderId in {a, b} ==> ra.value[k].isMine != rb.value[k].isMine)
  {
    FindConversationSymmetric(conversations, a, b);
  }

  /** The `send` mutation. */
  method Send(db: Store, subject: Option<string>, content: string, receiverId: UserId) returns (r: Outcome<Error>)
    modifies db
    ensures CurrentUser(subject, old(db.users)).Failure? ==>
      r == Fail(CurrentUser(subject, old(db.users)).error) && unchanged(db)
    ensures CurrentUser(subject, old(db.users)).Success? ==>
      var me := CurrentUser(subject, old(db.users)).value;
      var res := Resolve(old(db.conversations), me, receiverId);
      && r == Pass
      && db.users == old(db.users)
      && db.conversations == res.conversations
      && db.messages == old(db.messages) + [NewMessage(res.id, me, content)]
    ensures UniquePairs(old(db.conversations)) ==> UniquePairs(db.conversations)
    ensures MessagesInConversations(old(db.conversations), old(db.messages)) ==>
      MessagesInConversations(db.conversations, db.messages)
  {
    var current := CurrentUser(subject, db.users);
    if current.Failure? {
      return Fail(current.error);
    }
    var me := current.value;
    if UniquePairs(db.conversations) {
      ResolveKeepsPairsUnique(db.conversations, me, receiverId);
    }
    var existing := FindConversation(db.conversations, me, receiverId);
    var conversationId: ConversationId;
    if existing.Some? {
      conversationId := existing.value;
    } else {
      conversationId := |db.conversations|;
      db.conversations := db.conversations + [NewConversation(me, receiverId)];
    }
    db.messages := db.messages + [NewMessage(conversationId, me, content)];
    r := Pass;
  }

  /**
   * After a successful send, each participant's listing gains exactly the new message,
   * at the end; it is marked as theirs only for the sender.
   */
  lemma SendThenGetMessages(users: seq<User>, conversations: seq<Conversation>, messages: seq<Message>,
                            subject: string, receiverId: UserId, content: string,
                            viewerSubject: string, viewer: UserId, other: UserId)
    requires CurrentUser(Some(subject), users).Success?
    requires CurrentUser(Some(viewerSubject), users) == Success(viewer)
    requires IsPair(NewConversation(CurrentUser(Some(subject), users).value, receiverId), viewer, other)
    requires MessagesInConversations(conversations, messages)
    ensures var me := CurrentUser(Some(subject), users).value;
            var res := Resolve(conversations, me, receiverId);
            var m := NewMessage(res.id, me, content);
            var before := GetMessages(Some(viewerSubject), other, users, conversations, messages);
            var after := GetMessages(Some(viewerSubject), other, users, res.conversations, messages + [m]);
            before.Success? && after.Success? && after.value == before.value + [MessageView(|messages|, m, me == viewer)]
  {
    var me := CurrentUser(Some(subject), users).value;
    var res := Resolve(conversations, me, receiverId);
    var m := NewMessage(res.id, me, content);
    FindConversationSymmetric(conversations, me, receiverId);
    FindConversationSymmetric(res.conversations, me, receiverId);
    assert FindConversation(conversations, viewer, other) == FindConversation(conversations, me, receiverId);
    assert FindConversation(res.conversations, viewer, other) == Some(res.id);
    ScanAppend(messages, m, (x: Message) => x.conversationId == res.id);
    var ids := ByConversation(messages, res.id);
    AnnotateAppend(messages, m, ids, viewer);
    if FindConversation(conversations, me, receiverId).None? {
      assert res.id == |conversations|;
      ScanNone(messages, (x: Message) => x.conversationId == res.id);
      assert GetMessages(Some(viewerSubject), other, users, conversations, messages) == Success([]);
    } else {
      assert GetMessages(Some(viewerSubject), other, users, conversations, messages) == Success(Annotate(messages, ids, viewer));
    }
  }
}
