/**
 * The Convex database `ctx.db` as three append-only in-memory tables, and the
 * index scans declared in convex/schema.ts. An index here is a lookup order, not a
 * uniqueness constraint: a scan returns every matching row, oldest first.
 */
module Database {
  import opened Wrappers
  import opened Schema

  /** The store behind every query and mutation. */
  class Store {
    var users: seq<User>
    var conversations: seq<Conversation>
    var messages: seq<Message>

    constructor ()
      ensures users == [] && conversations == [] && messages == []
    {
      users := [];
      conversations := [];
      messages := [];
    }
  }

  /** A document as a query returns it: its `_id` and its fields. */
  datatype Doc<T> = Doc(id: nat, fields: T)

  /** What `.unique()` makes of the rows a query matched: none, exactly one, or an error. */
  datatype Unique = NoRow | OneRow(id: nat) | ManyRows

  /** Strictly ascending ids are distinct and in creation order. */
  ghost predicate Ascending(ids: seq<nat>)
  {
    forall k, l :: 0 <= k < l < |ids| ==> ids[k] < ids[l]
  }

  /** `.first()` over the ids a query matched: the oldest one, if any. */
  function First(ids: seq<nat>): (r: Option<nat>)
    ensures r.None? <==> ids == []
    ensures r.Some? ==> r.value == ids[0]
    ensures r.Some? && Ascending(ids) ==> forall k :: 0 <= k < |ids| ==> r.value <= ids[k]
  {
    if |ids| == 0 then None else Some(ids[0])
  }

  /** `.unique()` over the ids a query matched: none, the single one, or several (Convex throws). */
  function UniqueOf(ids: seq<nat>): (r: Unique)
    ensures r.NoRow? <==> ids == []
    ensures r.OneRow? <==> |ids| == 1
    ensures r.OneRow? ==> ids == [r.id]
  {
    if |ids| == 0 then NoRow else if |ids| == 1 then OneRow(ids[0]) else ManyRows
  }

  /**
   * An index scan: the ids of all rows whose key matches, in creation order. Each
   * index of convex/schema.ts is such a scan with its own key test.
   */
  function Scan<T>(rows: seq<T>, matches: T -> bool): (ids: seq<nat>)
    ensures Ascending(ids)
    ensures forall k :: 0 <= k < |ids| ==> ids[k] < |rows| && matches(rows[ids[k]])
    ensures forall i :: 0 <= i < |rows| && matches(rows[i]) ==> i in ids
  {
    if |rows| == 0 then []
    else
      var ids := Scan(rows[..|rows| - 1], matches);
      if matches(rows[|rows| - 1]) then ids + [|rows| - 1] else ids
  }

  /** Appending a row extends a scan by that row exactly when it matches. */
  lemma ScanAppend<T>(rows: seq<T>, row: T, matches: T -> bool)
    ensures Scan(rows + [row], matches) == Scan(rows, matches) + (if matches(row) then [|rows|] else [])
  {
    assert (rows + [row])[..|rows|] == rows;
  }

  /** A key that no row has scans empty. */
  lemma {:induction false} ScanNone<T>(rows: seq<T>, matches: T -> bool)
    requires forall i :: 0 <= i < |rows| ==> !matches(rows[i])
    ensures Scan(rows, matches) == []
  {
    if |rows| > 0 {
      ScanNone(rows[..|rows| - 1], matches);
    }
  }

  /** The `by_clerkId` index: users with this `clerkId`, oldest first. */
  function ByClerkId(users: seq<User>, clerkId: string): seq<UserId>
  {
    Scan(users, (u: User) => u.clerkId == clerkId)
  }

  /** The `by_conversation` index: messages of this conversation, oldest first (`.order("asc")`). */
  function ByConversation(messages: seq<Message>, conversationId: ConversationId): seq<MessageId>
  {
    Scan(messages, (m: Message) => m.conversationId == conversationId)
  }

  /** `by_clerkId` does not stop two users from sharing a `clerkId`. */
  lemma ClerkIdIndexAdmitsDuplicates(u: User)
    ensures UniqueOf(ByClerkId([u, u], u.clerkId)) == ManyRows
  {
    var ids := ByClerkId([u, u], u.clerkId);
    assert 0 in ids && 1 in ids;
  }
}
