/**
 * The sliding-window rate limiter as the object the program keeps: a map from
 * user to a queue of admission instants, changed in place by every call.
 * Each method is proved against the functions of module Window; the
 * instant of the call is the parameter `now`.  Two ghost logs, of the
 * instants of the calls and of every admission, carry the limiter's promise:
 * while the calls' instants never go back, no window of `windowSize` holds
 * more than `maxRequests` admissions of one user.
 */
module RateLimiter {
  import opened Durations
  import opened Users
  import opened Window

  class SlidingWindowRateLimiter {
    const windowSize: real
    const maxRequests: int
    var usersHistory: History
    /** Every admitted instant of every user, in the order admitted; never cleaned. */
    ghost var admitted: History
    /** The instant of every call so far, in call order. */
    ghost var instants: seq<real>

    /**
     * A key present in the history always has a non-empty queue.  While the
     * calls' instants have not gone back, each queue is what cleanup left of
     * the user's admissions, and with a limit of at least one no window holds
     * more than `maxRequests` admissions of one user.
     */
    ghost predicate Valid()
      reads this
    {
      && NoEmptyEntries(usersHistory)
      && Monitored(usersHistory, admitted, instants, windowSize, maxRequests)
    }

    constructor (windowSize: real := 10.0, maxRequests: int := 1)
      ensures Valid()
      ensures this.windowSize == windowSize && this.maxRequests == maxRequests
      ensures usersHistory == map[] && admitted == map[] && instants == []
      ensures WithinLimit(usersHistory, maxRequests) && forall now :: Chronological(usersHistory, now)
    {
      this.windowSize := windowSize;
      this.maxRequests := maxRequests;
      usersHistory := map[];
      admitted := map[];
      instants := [];
    }

    /**
     * Pops, from the front of `user`'s queue, every instant strictly before
     * `now - windowSize`, and removes the user once its queue is empty.
     */
    method CleanupWindow(user: UserId, now: real)
      modifies this
      ensures usersHistory == Cleaned(old(usersHistory), user, now - windowSize)
      ensures admitted == old(admitted) && instants == old(instants)
    {
      if user in usersHistory {
        var windowStartTime := now - windowSize;
        while usersHistory[user] != [] && usersHistory[user][0] < windowStartTime
          invariant user in usersHistory
          invariant admitted == old(admitted) && instants == old(instants)
          invariant usersHistory == old(usersHistory)[user := usersHistory[user]]
          invariant DropStale(usersHistory[user], windowStartTime) == DropStale(old(usersHistory)[user], windowStartTime)
          decreases |usersHistory[user]|
        {
          DropStaleStep(usersHistory[user], windowStartTime);
          usersHistory := usersHistory[user := usersHistory[user][1..]];
        }
        assert usersHistory[user] == DropStale(old(usersHistory)[user], windowStartTime);
        if usersHistory[user] == [] {
          usersHistory := usersHistory - {user};
          assert usersHistory == old(usersHistory) - {user};
        }
      }
    }

    /**
     * Cleans `user`'s queue, then answers whether a message from it is
     * admitted: it has no queue left, or fewer than `maxRequests` instants.
     */
    method CanSendMessage(user: UserId, now: real) returns (ok: bool)
      requires Valid()
      modifies this
      ensures Valid()
      ensures usersHistory == Cleaned(old(usersHistory), user, now - windowSize)
      ensures admitted == old(admitted) && instants == old(instants) + [now]
      ensures ok == Admits(usersHistory, user, maxRequests)
      ensures old(WithinLimit(usersHistory, maxRequests)) ==> WithinLimit(usersHistory, maxRequests)
      ensures old(Chronological(usersHistory, now)) ==> Chronological(usersHistory, now)
    {
      CleanupPreservesInvariants(usersHistory, user, now - windowSize, maxRequests, now);
      CleanupKeepsMonitored(usersHistory, admitted, instants, user, now, windowSize, maxRequests);
      CleanupWindow(user, now);
      instants := instants + [now];
      ok := user !in usersHistory || |usersHistory[user]| < maxRequests;
    }

    /**
     * Records a message from `user` at `now` if it is admitted: `now` goes to
     * the back of the user's queue, which is created if absent.  A refused
     * message changes nothing beyond the cleanup.
     */
    method RecordMessage(user: UserId, now: real) returns (ok: bool)
      requires Valid()
      modifies this
      ensures Valid()
      ensures ok == Admitted(old(usersHistory), user, now, windowSize, maxRequests)
      ensures usersHistory == AfterRecord(old(usersHistory), user, now, windowSize, maxRequests)
      ensures admitted == if ok then Appended(old(admitted), user, now) else old(admitted)
      ensures instants == old(instants) + [now]
      ensures 1 <= maxRequests && old(WithinLimit(usersHistory, maxRequests)) ==> WithinLimit(usersHistory, maxRequests)
      ensures old(Chronological(usersHistory, now)) ==> Chronological(usersHistory, now)
    {
      ok := CanSendMessage(user, now);
      if ok {
        ghost var cleaned := usersHistory;
        assert instants[|instants| - 1] == now;
        AppendPreservesInvariants(cleaned, user, now, maxRequests);
        AdmissionKeepsMonitored(cleaned, admitted, instants, user, windowSize, maxRequests);
        admitted := Appended(admitted, user, now);
        if user !in usersHistory {
          usersHistory := usersHistory[user := []];
        }
        usersHistory := usersHistory[user := usersHistory[user] + [now]];
        assert usersHistory == Appended(cleaned, user, now);
      }
    }

    /**
     * Cleans `user`'s queue, then reports how long the user must wait: zero
     * while it is admitted, otherwise the time until its oldest instant
     * leaves the window, never negative.
     */
    method TimeUntilNextAllowed(user: UserId, now: real) returns (wait: real)
      requires Valid()
      modifies this
      ensures Valid()
      ensures usersHistory == Cleaned(old(usersHistory), user, now - windowSize)
      ensures admitted == old(admitted) && instants == old(instants) + [now]
      ensures wait == WaitTime(usersHistory, user, now, windowSize, maxRequests)
      ensures old(WithinLimit(usersHistory, maxRequests)) ==> WithinLimit(usersHistory, maxRequests)
      ensures old(Chronological(usersHistory, now)) ==> Chronological(usersHistory, now)
    {
      CleanupPreservesInvariants(usersHistory, user, now - windowSize, maxRequests, now);
      CleanupKeepsMonitored(usersHistory, admitted, instants, user, now, windowSize, maxRequests);
      CleanupWindow(user, now);
      instants := instants + [now];
      if user !in usersHistory || |usersHistory[user]| < maxRequests {
        return 0.0;
      }
      var oldestMessageTime := usersHistory[user][0];
      var waitTime := windowSize - (now - oldestMessageTime);
      wait := ClampAtZero(waitTime);
    }
  }

  /**
   * The sliding window's promise: while every call carried an instant no
   * earlier than the call before, and the limit is at least one, any window
   * `[t - windowSize, t]` holds at most `maxRequests` admitted messages of
   * `user`.
   */
  lemma AtMostMaxRequestsPerWindow(limiter: SlidingWindowRateLimiter, user: UserId, t: real)
    requires limiter.Valid() && Sorted(limiter.instants) && 1 <= limiter.maxRequests
    ensures CountInWindow(QueueOf(limiter.admitted, user), t, limiter.windowSize) <= limiter.maxRequests
  {
    if user !in limiter.admitted {
      assert CountInWindow([], t, limiter.windowSize) == 0;
    }
  }

  /** A window of 10 seconds and one message: a client of the contracts above. */
  method WindowOfOneScenario() {
    var limiter := new SlidingWindowRateLimiter(10.0, 1);
    var ok := limiter.RecordMessage("1", 0.0);
    assert ok;
    ok := limiter.CanSendMessage("1", 5.0);
    assert !ok;
    var wait := limiter.TimeUntilNextAllowed("1", 5.0);
    assert wait == 5.0;
    ok := limiter.CanSendMessage("1", 10.1);
    assert ok;
  }
}
