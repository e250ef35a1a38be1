/**
 * The user directory (convex/users.ts): the `syncUser` upsert keyed by `clerkId`
 * and the `getUsers` search, plus the `by_clerkId` lookups that the message
 * handlers use to find the caller.
 */
module Users {
  import opened Wrappers
  import opened Schema
  import opened Database

  /** No two users share a `clerkId`: the invariant `syncUser` maintains, since the index does not. */
  ghost predicate UniqueClerkIds(users: seq<User>)
  {
    forall i, j :: 0 <= i < j < |users| ==> users[i].clerkId != users[j].clerkId
  }

  /** `.withIndex("by_clerkId", ...).first()`: the oldest user with this `clerkId`. */
  function FirstByClerkId(users: seq<User>, clerkId: string): (r: Option<UserId>)
    ensures r.None? <==> forall i :: 0 <= i < |users| ==> users[i].clerkId != clerkId
    ensures r.Some? ==> r.value < |users| && users[r.value].clerkId == clerkId
    ensures r.Some? ==> forall j :: 0 <= j < r.value ==> users[j].clerkId != clerkId
  {
    var ids := ByClerkId(users, clerkId);
    assert |ids| > 0 ==> ids[0] in ids;
    First(ids)
  }

  /** `.withIndex("by_clerkId", ...).unique()`: the one user with this `clerkId`, none, or an error for several. */
  function UniqueByClerkId(users: seq<User>, clerkId: string): (r: Unique)
    ensures r.NoRow? <==> forall i :: 0 <= i < |users| ==> users[i].clerkId != clerkId
    ensures r.OneRow? ==> r.id < |users| && users[r.id].clerkId == clerkId
    ensures r.OneRow? ==> forall j :: 0 <= j < |users| && j != r.id ==> users[j].clerkId != clerkId
    ensures r.ManyRows? <==> exists i, j :: 0 <= i < j < |users| && users[i].clerkId == clerkId && users[j].clerkId == clerkId
  {
    var ids := ByClerkId(users, clerkId);
    assert |ids| > 1 ==> ids[0] < ids[1];
    UniqueOf(ids)
  }

  /** With unique `clerkId`s, `.unique()` on `by_clerkId` never throws. */
  lemma UniqueClerkIdsNeverMany(users: seq<User>, clerkId: string)
    requires UniqueClerkIds(users)
    ensures !UniqueByClerkId(users, clerkId).ManyRows?
  {
  }

  /** The users table after `syncUser`, and the id it returns. */
  datatype Synced = Synced(users: seq<User>, id: UserId)

  /** `syncUser` on table contents: patch name and image of the first match, or insert a new user. */
  function Upsert(users: seq<User>, name: string, email: string, clerkId: string, image: string): (r: Synced)
    ensures r.id < |r.users| && r.users[r.id].clerkId == clerkId
    ensures r.users[r.id].name == name && r.users[r.id].image == image
    ensures FirstByClerkId(r.users, clerkId) == Some(r.id)
    ensures forall j :: 0 <= j < |users| && j != r.id ==> j < |r.users| && r.users[j] == users[j]
    ensures FirstByClerkId(users, clerkId).Some? <==> |r.users| == |users|
    ensures FirstByClerkId(users, clerkId).Some? ==> r.id == FirstByClerkId(users, clerkId).value
    ensures FirstByClerkId(users, clerkId).None? ==> r.id == |users|
    ensures r.id < |users| ==>
      && r.users[r.id].email == users[r.id].email
      && r.users[r.id].lastSeen == users[r.id].lastSeen
      && r.users[r.id].isTypingId == users[r.id].isTypingId
    ensures r.id >= |users| ==> r.id == |users| && |r.users| == |users| + 1 && r.users[r.id] == NewUser(name, email, clerkId, image)
  {
    match FirstByClerkId(users, clerkId)
    case Some(i) => Synced(users[i := users[i].(name := name, image := image)], i)
    case None => Synced(users + [NewUser(name, email, clerkId, image)], |users|)
  }

  /** Sequential `syncUser` calls never give two users the same `clerkId`. */
  lemma UpsertKeepsClerkIdsUnique(users: seq<User>, name: string, email: string, clerkId: string, image: string)
    requires UniqueClerkIds(users)
    ensures UniqueClerkIds(Upsert(users, name, email, clerkId, image).users)
  {
    var r := Upsert(users, name, email, clerkId, image);
    forall i, j | 0 <= i < j < |r.users|
      ensures r.users[i].clerkId != r.users[j].clerkId
    {
      if j == |users| {
        assert FirstByClerkId(users, clerkId).None?;
        assert r.users[i] == users[i];
      } else {
        assert r.users[i].clerkId == users[i].clerkId && r.users[j].clerkId == users[j].clerkId;
      }
    }
  }

  /** A second `syncUser` with the same arguments changes nothing and returns the same id. */
  lemma UpsertIdempotent(users: seq<User>, name: string, email: string, clerkId: string, image: string)
    ensures var once := Upsert(users, name, email, clerkId, image);
            Upsert(once.users, name, email, clerkId, image) == once
  {
    var once := Upsert(users, name, email, clerkId, image);
    var twice := Upsert(once.users, name, email, clerkId, image);
    assert twice.id == once.id;
    assert twice.users == once.users;
  }

  /** The `syncUser` mutation: update the caller's profile in place, or register it. */
  method SyncUser(db: Store, name: string, email: string, clerkId: string, image: string) returns (id: UserId)
    modifies db
    ensures var r := Upsert(old(db.users), name, email, clerkId, image);
            db.users == r.users && id == r.id
    ensures db.conversations == old(db.conversations) && db.messages == old(db.messages)
    ensures UniqueClerkIds(old(db.users)) ==> UniqueClerkIds(db.users)
  {
    if UniqueClerkIds(db.users) {
      UpsertKeepsClerkIdsUnique(db.users, name, email, clerkId, image);
    }
    var existing := FirstByClerkId(db.users, clerkId);
    if existing.Some? {
      id := existing.value;
      db.users := db.users[id := db.users[id].(name := name, image := image)];
      return;
    }
    id := |db.users|;
    db.users := db.users + [NewUser(name, email, clerkId, image)];
  }

  /** ASCII `toLowerCase` of one character. */
  function LowerChar(c: char): (l: char)
    ensures !('A' <= l <= 'Z')
    ensures 'A' <= c <= 'Z' ==> l as int == c as int + 32
    ensures !('A' <= c <= 'Z') ==> l == c
  {
    if 'A' <= c <= 'Z' then (c as int - 'A' as int + 'a' as int) as char else c
  }

  /** ASCII `toLowerCase` of a string. */
  function Lower(s: string): (r: string)
    ensures |r| == |s|
    ensures forall i :: 0 <= i < |s| ==> r[i] == LowerChar(s[i])
    ensures forall i :: 0 <= i < |r| ==> !('A' <= r[i] <= 'Z')
  {
    seq(|s|, i requires 0 <= i < |s| => LowerChar(s[i]))
  }

  /** `t` occurs in `s` at position `i`. */
  ghost predicate OccursAt(s: string, t: string, i: int)
  {
    0 <= i && i + |t| <= |s| && s[i..i + |t|] == t
  }

  /** JavaScript's `s.includes(t)`: `t` occurs in `s` at some position. */
  function Includes(s: string, t: string): (b: bool)
    ensures b <==> exists i :: OccursAt(s, t, i)
    decreases |s|
  {
    if t <= s then
      assert OccursAt(s, t, 0);
      true
    else if |s| == 0 then false
    else
      IncludesShift(s, t);
      Includes(s[1..], t)
  }

  /** When `t` is not a prefix of `s`, it occurs in `s` exactly when it occurs in `s[1..]`. */
  lemma IncludesShift(s: string, t: string)
    requires |s| > 0 && !(t <= s)
    ensures (exists i :: OccursAt(s, t, i)) <==> (exists i :: OccursAt(s[1..], t, i))
  {
    if i :| OccursAt(s, t, i) {
      assert i != 0;
      assert s[1..][i - 1..i - 1 + |t|] == s[i..i + |t|];
      assert OccursAt(s[1..], t, i - 1);
    }
    if i :| OccursAt(s[1..], t, i) {
      assert s[i + 1..i + 1 + |t|] == s[1..][i..i + |t|];
      assert OccursAt(s, t, i + 1);
    }
  }

  /** The `getUsers` filter: the name matches the search term ignoring case, and it is not the caller. */
  predicate Listed(u: User, searchTerm: string, callerClerkId: string)
    ensures Listed(u, searchTerm, callerClerkId) <==>
      (exists i :: OccursAt(Lower(u.name), Lower(searchTerm), i)) && u.clerkId != callerClerkId
  {
    Includes(Lower(u.name), Lower(searchTerm)) && u.clerkId != callerClerkId
  }

  /** `users.filter(...)` over the collected table, keeping the table's order. */
  function FilterUsers(users: seq<User>, searchTerm: string, callerClerkId: string): (r: seq<Doc<User>>)
    ensures forall k, l :: 0 <= k < l < |r| ==> r[k].id < r[l].id
    ensures forall k :: 0 <= k < |r| ==> r[k].id < |users| && r[k].fields == users[r[k].id]
    ensures forall k :: 0 <= k < |r| ==> Listed(r[k].fields, searchTerm, callerClerkId)
    ensures forall i :: 0 <= i < |users| && Listed(users[i], searchTerm, callerClerkId) ==>
              exists k :: 0 <= k < |r| && r[k].id == i
  {
    if |users| == 0 then []
    else
      var n := |users| - 1;
      var r := FilterUsers(users[..n], searchTerm, callerClerkId);
      var d := Doc(n, users[n]);
      assert forall k :: 0 <= k < |r| ==> (r + [d])[k] == r[k];
      assert forall i :: 0 <= i < n ==> users[..n][i] == users[i];
      if Listed(users[n], searchTerm, callerClerkId) then
        assert (r + [d])[|r|] == d;
        r + [d]
      else r
  }

  /** The `getUsers` query: nothing for a signed-out caller, else every other user whose name matches. */
  function GetUsers(subject: Option<string>, searchTerm: string, users: seq<User>): (r: seq<Doc<User>>)
    ensures subject.None? ==> r == []
    ensures subject.Some? ==> forall k :: 0 <= k < |r| ==> r[k].fields.clerkId != subject.value
    ensures forall k, l :: 0 <= k < l < |r| ==> r[k].id < r[l].id
    ensures forall k :: 0 <= k < |r| ==> r[k].id < |users| && r[k].fields == users[r[k].id]
    ensures subject.Some? ==> forall k :: 0 <= k < |r| ==> Includes(Lower(r[k].fields.name), Lower(searchTerm))
    ensures subject.Some? ==> forall i :: 0 <= i < |users| && Listed(users[i], searchTerm, subject.value) ==>
              exists k :: 0 <= k < |r| && r[k].id == i
  {
    match subject
    case None => []
    case Some(callerClerkId) => FilterUsers(users, searchTerm, callerClerkId)
  }

  /** With an empty search term `getUsers` lists every user except the caller. */
  lemma EmptySearchListsEveryoneElse(callerClerkId: string, users: seq<User>)
    ensures var r := GetUsers(Some(callerClerkId), "", users);
            forall i :: 0 <= i < |users| ==>
              (users[i].clerkId != callerClerkId <==> exists k :: 0 <= k < |r| && r[k].id == i)
  {
    var r := GetUsers(Some(callerClerkId), "", users);
    forall i | 0 <= i < |users| && users[i].clerkId != callerClerkId
      ensures Listed(users[i], "", callerClerkId)
    {
      assert Lower("") == "";
      assert OccursAt(Lower(users[i].name), "", 0);
    }
  }
}
