/**
 * The online indicator of the user list (client/src/app/users/page.tsx): a user
 * is online while the last heartbeat is less than two seconds old. Times are
 * integer milliseconds; `lastSeen` is the optional field of the users table.
 */
module Presence {
  import opened Wrappers

  /** The presence window in milliseconds. */
  const OnlineWindow: int := 2000

  /**
   * `user.lastSeen && now - user.lastSeen < 2000` read as a truth value: an absent
   * `lastSeen` and a `lastSeen` of 0 are both falsy in JavaScript.
   */
  predicate IsOnline(lastSeen: Option<int>, now: int)
    ensures IsOnline(lastSeen, now) ==> lastSeen.Some? && lastSeen.value != 0
    ensures lastSeen.Some? && lastSeen.value != 0 ==> (IsOnline(lastSeen, now) <==> now < lastSeen.value + OnlineWindow)
  {
    match lastSeen
    case None => false
    case Some(t) => t != 0 && now - t < OnlineWindow
  }

  /** The status line under the user's name. */
  function StatusLabel(lastSeen: Option<int>, now: int): (status: string)
    ensures status == "Online" <==> IsOnline(lastSeen, now)
    ensures status == "Offline" <==> !IsOnline(lastSeen, now)
  {
    if IsOnline(lastSeen, now) then "Online" else "Offline"
  }

  /** A user who never sent a heartbeat is offline. */
  lemma NeverSeenIsOffline(now: int)
    ensures !IsOnline(None, now)
  {
  }

  /** A `lastSeen` of 0 counts as absent, so that user is offline. */
  lemma ZeroLastSeenIsOffline(now: int)
    ensures !IsOnline(Some(0), now)
  {
  }

  /** With a nonzero `lastSeen`, online means the heartbeat is less than the window old. */
  lemma OnlineWithinWindow(t: int, now: int)
    requires t != 0
    ensures IsOnline(Some(t), now) <==> now < t + OnlineWindow
  {
  }

  /** The window is half-open: exactly 2000 ms after the heartbeat the user is offline. */
  lemma OfflineAtWindowEnd(t: int)
    ensures !IsOnline(Some(t), t + OnlineWindow)
  {
  }

  /** Without a new heartbeat, an offline user stays offline as time passes. */
  lemma OfflineStaysOffline(lastSeen: Option<int>, now: int, later: int)
    requires now <= later
    requires !IsOnline(lastSeen, now)
    ensures !IsOnline(lastSeen, later)
  {
  }
}
