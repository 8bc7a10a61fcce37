/**
 * The state of the sliding-window limiter as a value: for every user, the
 * instants of the messages it admitted, oldest first.  The functions here are
 * the specification of the limiter's operations (cleanup, the admission test,
 * recording, the wait time); the class in module RateLimiter is proved
 * against them, and the lemmas state what the limiter promises.
 */
module Window {
  import opened Durations
  import opened Users

  /** Per-user admission instants, oldest first. */
  type History = map<UserId, seq<real>>

  predicate Sorted(q: seq<real>) {
    forall i, j :: 0 <= i < j < |q| ==> q[i] <= q[j]
  }

  /**
   * How many instants cleanup pops from the front of `q`: the length of the
   * longest prefix that lies strictly before `windowStart`.
   */
  function StaleCount(q: seq<real>, windowStart: real): (n: nat)
    ensures n <= |q|
    ensures forall i :: 0 <= i < n ==> q[i] < windowStart
    ensures n < |q| ==> windowStart <= q[n]
    decreases |q|
  {
    if q != [] && q[0] < windowStart then 1 + StaleCount(q[1..], windowStart) else 0
  }

  /** The queue left after popping its stale prefix: a suffix of `q`. */
  function DropStale(q: seq<real>, windowStart: real): seq<real> {
    q[StaleCount(q, windowStart)..]
  }

  /**
   * The history after cleaning `user`'s queue against `windowStart`: the
   * queue loses its stale prefix, a queue left empty is removed together with
   * its key, and every other user's entry is untouched.
   */
  function Cleaned(h: History, user: UserId, windowStart: real): (c: History)
    ensures forall k :: k != user ==> (k in c <==> k in h)
    ensures forall k :: k != user && k in h ==> c[k] == h[k]
    ensures user in c <==> user in h && DropStale(h[user], windowStart) != []
    ensures user in c ==> c[user] == DropStale(h[user], windowStart)
  {
    if user !in h then h
    else
      var q := DropStale(h[user], windowStart);
      if q == [] then h - {user} else h[user := q]
  }

  /** The admission test on an already cleaned history. */
  predicate Admits(h: History, user: UserId, maxRequests: int) {
    user !in h || |h[user]| < maxRequests
  }

  /** Whether a message from `user` at `now` is admitted (cleanup, then test). */
  predicate Admitted(h: History, user: UserId, now: real, windowSize: real, maxRequests: int) {
    Admits(Cleaned(h, user, now - windowSize), user, maxRequests)
  }

  /** `now` appended at the back of `user`'s queue, which is created if absent. */
  function Appended(h: History, user: UserId, now: real): History {
    h[user := (if user in h then h[user] else []) + [now]]
  }

  /** The history after a call that records a message from `user` at `now`. */
  function AfterRecord(h: History, user: UserId, now: real, windowSize: real, maxRequests: int): History {
    var c := Cleaned(h, user, now - windowSize);
    if Admits(c, user, maxRequests) then Appended(c, user, now) else c
  }

  /**
   * The wait reported on an already cleaned history: zero while `user` is
   * admitted, otherwise the time left until its oldest instant leaves the
   * window, clamped at zero.
   */
  function WaitTime(h: History, user: UserId, now: real, windowSize: real, maxRequests: int): (w: real)
    requires user in h ==> h[user] != []
    ensures 0.0 <= w
    ensures Admits(h, user, maxRequests) ==> w == 0.0
    ensures !Admits(h, user, maxRequests) ==> h[user][0] + windowSize <= now + w
  {
    if Admits(h, user, maxRequests) then 0.0
    else ClampAtZero(windowSize - (now - h[user][0]))
  }

  // Invariants of the history.

  /** A key present in the history always has a non-empty queue. */
  ghost predicate NoEmptyEntries(h: History) {
    forall k {:trigger h[k]} :: k in h ==> h[k] != []
  }

  /** No queue is longer than the limit. */
  ghost predicate WithinLimit(h: History, maxRequests: int) {
    forall k {:trigger h[k]} :: k in h ==> |h[k]| <= maxRequests
  }

  /** Every queue is oldest-first and holds no instant after `now`. */
  ghost predicate Chronological(h: History, now: real) {
    forall k {:trigger h[k]} :: k in h ==> Sorted(h[k]) && forall i :: 0 <= i < |h[k]| ==> h[k][i] <= now
  }

  // Cleanup.

  /** A queue is emptied by cleanup exactly when every instant in it is stale. */
  lemma ExpiredQueueIsEmptied(q: seq<real>, windowStart: real)
    ensures DropStale(q, windowStart) == [] <==> forall i :: 0 <= i < |q| ==> q[i] < windowStart
  {
    var r := DropStale(q, windowStart);
    if r != [] {
      assert q[|q| - |r|] == r[0];
    }
  }

  /** Popping one stale instant from the front does not change what cleanup keeps. */
  lemma DropStaleStep(q: seq<real>, windowStart: real)
    requires q != [] && q[0] < windowStart
    ensures DropStale(q[1..], windowStart) == DropStale(q, windowStart)
  {
    assert StaleCount(q, windowStart) == 1 + StaleCount(q[1..], windowStart);
  }

  /** On an oldest-first queue, every instant kept by cleanup is inside the window. */
  lemma DropStaleKeepsWindow(q: seq<real>, windowStart: real)
    requires Sorted(q)
    ensures Sorted(DropStale(q, windowStart))
    ensures forall i :: 0 <= i < |DropStale(q, windowStart)| ==> windowStart <= DropStale(q, windowStart)[i]
  {
    var r := DropStale(q, windowStart);
    forall i | 0 <= i < |r|
      ensures windowStart <= r[i]
    {
      assert r[0] == q[|q| - |r|] && r[i] == q[|q| - |r| + i];
    }
  }

  /** A queue whose front is inside the window is left as it is by cleanup. */
  lemma CleanQueueIsFixed(h: History, user: UserId, windowStart: real)
    requires user in h && h[user] != [] && windowStart <= h[user][0]
    ensures Cleaned(h, user, windowStart) == h
  {
    var q := h[user];
    assert DropStale(q, windowStart) == q;
    assert h[user := q] == h;
  }

  /** Cleaning twice at the same instant is cleaning once. */
  lemma CleanupIsIdempotent(h: History, user: UserId, windowStart: real)
    ensures Cleaned(Cleaned(h, user, windowStart), user, windowStart) == Cleaned(h, user, windowStart)
  {
    var c := Cleaned(h, user, windowStart);
    if user in c {
      CleanQueueIsFixed(c, user, windowStart);
    }
  }

  /** Cleanup keeps every invariant of the history. */
  lemma CleanupPreservesInvariants(h: History, user: UserId, windowStart: real, maxRequests: int, now: real)
    ensures var c := Cleaned(h, user, windowStart);
      && (NoEmptyEntries(h) ==> NoEmptyEntries(c))
      && (WithinLimit(h, maxRequests) ==> WithinLimit(c, maxRequests))
      && (Chronological(h, now) ==> Chronological(c, now))
  {
    var c := Cleaned(h, user, windowStart);
    if Chronological(h, now) && user in c {
      var q, r := h[user], c[user];
      assert Sorted(r) by { DropStaleKeepsWindow(q, windowStart); }
      forall i | 0 <= i < |r|
        ensures r[i] <= now
      {
        assert r[i] == q[|q| - |r| + i];
      }
    }
  }

  // Recording.

  /**
   * Appending `now` leaves every queue non-empty, keeps a queue that had room
   * within a positive limit, and keeps queues oldest-first when `now` is not
   * earlier than any stored instant.
   */
  lemma AppendPreservesInvariants(h: History, user: UserId, now: real, maxRequests: int)
    ensures NoEmptyEntries(h) ==> NoEmptyEntries(Appended(h, user, now))
    ensures 1 <= maxRequests && WithinLimit(h, maxRequests) && Admits(h, user, maxRequests)
      ==> WithinLimit(Appended(h, user, now), maxRequests)
    ensures Chronological(h, now) ==> Chronological(Appended(h, user, now), now)
  {
    var q := if user in h then h[user] else [];
    var q' := q + [now];
    assert Appended(h, user, now)[user] == q';
    if Chronological(h, now) {
      forall i, j | 0 <= i < j < |q'|
        ensures q'[i] <= q'[j]
      {
        if j < |q| {
          assert q'[i] == q[i] && q'[j] == q[j];
        } else {
          assert q'[i] == q[i];
        }
      }
    }
  }

  /**
   * A call that records a message keeps every queue non-empty, keeps every
   * queue within a positive limit, and keeps every queue oldest-first when no
   * stored instant is later than the new one.
   */
  lemma RecordPreservesInvariants(h: History, user: UserId, now: real, windowSize: real, maxRequests: int)
    ensures NoEmptyEntries(h) ==> NoEmptyEntries(AfterRecord(h, user, now, windowSize, maxRequests))
    ensures 1 <= maxRequests && WithinLimit(h, maxRequests)
      ==> WithinLimit(AfterRecord(h, user, now, windowSize, maxRequests), maxRequests)
    ensures Chronological(h, now) ==> Chronological(AfterRecord(h, user, now, windowSize, maxRequests), now)
  {
    var c := Cleaned(h, user, now - windowSize);
    CleanupPreservesInvariants(h, user, now - windowSize, maxRequests, now);
    if Admits(c, user, maxRequests) {
      AppendPreservesInvariants(c, user, now, maxRequests);
      assert AfterRecord(h, user, now, windowSize, maxRequests) == Appended(c, user, now);
    } else {
      assert AfterRecord(h, user, now, windowSize, maxRequests) == c;
    }
  }

  /**
   * Users are independent: cleaning, testing or recording for `a` does not
   * change whether `b` is admitted, at any instant.
   */
  lemma OtherUsersUnaffected(h: History, a: UserId, b: UserId, nowA: real, nowB: real, windowSize: real, maxRequests: int)
    requires a != b
    ensures Admitted(Cleaned(h, a, nowA - windowSize), b, nowB, windowSize, maxRequests)
        == Admitted(h, b, nowB, windowSize, maxRequests)
    ensures Admitted(AfterRecord(h, a, nowA, windowSize, maxRequests), b, nowB, windowSize, maxRequests)
        == Admitted(h, b, nowB, windowSize, maxRequests)
  {
    var c := Cleaned(h, a, nowA - windowSize);
    var h' := AfterRecord(h, a, nowA, windowSize, maxRequests);
    assert b in c <==> b in h;
    assert b in h' <==> b in h;
    if b in h {
      assert c[b] == h[b] && h'[b] == h[b];
    }
  }

  // Waiting.

  /**
   * The wait is exact: on the history cleaned at `now`, a message from `user`
   * is admitted at instant `t` (with nothing recorded in between) exactly
   * when it is admitted already, or `t` lies strictly after `now` plus the
   * wait.  At `now + wait` itself the oldest instant is not yet stale.
   */
  lemma WaitTimeIsExact(h: History, user: UserId, now: real, t: real, windowSize: real, maxRequests: int)
    requires Chronological(h, now) && WithinLimit(h, maxRequests)
    ensures var c := Cleaned(h, user, now - windowSize);
      var admittedLater := Admitted(c, user, t, windowSize, maxRequests);
      admittedLater <==> Admits(c, user, maxRequests) || now + WaitTime(c, user, now, windowSize, maxRequests) < t
  {
    var c := Cleaned(h, user, now - windowSize);
    if !Admits(c, user, maxRequests) {
      var q := c[user];
      DropStaleKeepsWindow(h[user], now - windowSize);
      assert |q| == maxRequests;
      var wait := WaitTime(c, user, now, windowSize, maxRequests);
      assert wait == windowSize - (now - q[0]);
      var d := DropStale(q, t - windowSize);
      if now + wait < t {
        assert |d| < |q|;
      } else {
        assert d == q;
      }
    }
  }

  /**
   * With a limit of zero or below, a user is admitted exactly when cleanup
   * left it no queue: a user without history is still admitted once.
   */
  lemma ZeroLimitAdmitsOnlyAbsent(h: History, user: UserId, now: real, windowSize: real, maxRequests: int)
    requires maxRequests <= 0
    ensures Admitted(h, user, now, windowSize, maxRequests) <==> user !in Cleaned(h, user, now - windowSize)
    ensures Admitted(map[], user, now, windowSize, maxRequests)
  {
  }

  // The admission log and the window bound.

  /** The queue stored for `user`, empty when the user has no key. */
  function QueueOf(h: History, user: UserId): seq<real> {
    if user in h then h[user] else []
  }

  /** If `s + [x]` is oldest-first, so is `s`, and `x` is no earlier than its last instant. */
  lemma SortedSnoc(s: seq<real>, x: real)
    requires Sorted(s + [x])
    ensures Sorted(s)
    ensures s != [] ==> s[|s| - 1] <= x
  {
    forall i, j | 0 <= i < j < |s|
      ensures s[i] <= s[j]
    {
      assert (s + [x])[i] == s[i] && (s + [x])[j] == s[j];
    }
    if s != [] {
      assert (s + [x])[|s| - 1] == s[|s| - 1] && (s + [x])[|s|] == x;
    }
  }

  /** How many of the instants in `ts` lie in the window `[t - windowSize, t]`. */
  ghost function CountInWindow(ts: seq<real>, t: real, windowSize: real): nat
    decreases |ts|
  {
    if ts == [] then 0
    else CountInWindow(ts[..|ts| - 1], t, windowSize) + (if t - windowSize <= ts[|ts| - 1] <= t then 1 else 0)
  }

  /**
   * The queue `q` is what cleanups no later than `clock` left of the logged
   * admissions `log`: a suffix of it, every dropped instant older than
   * `clock - windowSize`.
   */
  ghost predicate TracksLog(q: seq<real>, log: seq<real>, clock: real, windowSize: real) {
    && |q| <= |log|
    && q == log[|log| - |q|..]
    && forall i :: 0 <= i < |log| - |q| ==> log[i] < clock - windowSize
  }

  /** Every stored queue tracks the user's logged admissions, as of `clock`. */
  ghost predicate Tracks(h: History, admitted: History, clock: real, windowSize: real) {
    && h.Keys <= admitted.Keys
    && (forall u :: u in admitted ==> TracksLog(QueueOf(h, u), admitted[u], clock, windowSize))
  }

  /** No window of `windowSize` holds more than `maxRequests` admissions of one user. */
  ghost predicate WindowBounded(admitted: History, windowSize: real, maxRequests: int) {
    forall u, t :: u in admitted ==> CountInWindow(admitted[u], t, windowSize) <= maxRequests
  }

  lemma {:induction false} CountInWindowAppend(a: seq<real>, b: seq<real>, t: real, windowSize: real)
    ensures CountInWindow(a + b, t, windowSize) == CountInWindow(a, t, windowSize) + CountInWindow(b, t, windowSize)
    decreases |b|
  {
    if b == [] {
      assert a + b == a;
    } else {
      var front := b[..|b| - 1];
      CountInWindowAppend(a, front, t, windowSize);
      assert (a + b)[..|a + b| - 1] == a + front;
    }
  }

  lemma {:induction false} CountInWindowAtMostLength(ts: seq<real>, t: real, windowSize: real)
    ensures CountInWindow(ts, t, windowSize) <= |ts|
    decreases |ts|
  {
    if ts != [] {
      CountInWindowAtMostLength(ts[..|ts| - 1], t, windowSize);
    }
  }

  lemma {:induction false} CountInWindowOfStale(ts: seq<real>, t: real, windowSize: real)
    requires forall i :: 0 <= i < |ts| ==> ts[i] < t - windowSize
    ensures CountInWindow(ts, t, windowSize) == 0
    decreases |ts|
  {
    if ts != [] {
      CountInWindowOfStale(ts[..|ts| - 1], t, windowSize);
    }
  }

  /** Cleaning a tracking queue at a later instant leaves a tracking queue. */
  lemma DropStaleKeepsTracking(q: seq<real>, log: seq<real>, clock: real, now: real, windowSize: real)
    requires TracksLog(q, log, clock, windowSize) && clock <= now
    ensures TracksLog(DropStale(q, now - windowSize), log, now, windowSize)
  {
    var n := StaleCount(q, now - windowSize);
    var r := q[n..];
    forall i | 0 <= i < |log| - |r|
      ensures log[i] < now - windowSize
    {
      if |log| - |q| <= i {
        assert log[i] == q[i - (|log| - |q|)];
      }
    }
  }

  /** Logging and storing the same instant keeps a queue tracking. */
  lemma AppendKeepsTracking(q: seq<real>, log: seq<real>, now: real, windowSize: real)
    requires TracksLog(q, log, now, windowSize)
    ensures TracksLog(q + [now], log + [now], now, windowSize)
  {
    var log' := log + [now];
    assert log'[|log'| - |q + [now]|..] == log[|log| - |q|..] + [now];
  }

  /**
   * The heart of the window bound: a queue that tracks the log at `now` and
   * has room holds every logged admission still inside any window that
   * contains `now`, so admitting one more at `now` keeps that window within
   * the limit.
   */
  lemma AdmissionStaysWithinWindow(q: seq<real>, log: seq<real>, now: real, t: real, windowSize: real, maxRequests: int)
    requires TracksLog(q, log, now, windowSize) && |q| < maxRequests
    requires CountInWindow(log, t, windowSize) <= maxRequests
    ensures CountInWindow(log + [now], t, windowSize) <= maxRequests
  {
    assert (log + [now])[..|log + [now]| - 1] == log;
    if t - windowSize <= now <= t {
      var dropped := log[..|log| - |q|];
      assert log == dropped + q;
      CountInWindowAppend(dropped, q, t, windowSize);
      CountInWindowOfStale(dropped, t, windowSize);
      CountInWindowAtMostLength(q, t, windowSize);
    }
  }

  /** Cleanup at an instant no earlier than `clock` keeps the history tracking the log. */
  lemma CleanupKeepsTracking(h: History, admitted: History, clock: real, user: UserId, now: real, windowSize: real)
    requires Tracks(h, admitted, clock, windowSize) && clock <= now
    ensures Tracks(Cleaned(h, user, now - windowSize), admitted, now, windowSize)
  {
    var c := Cleaned(h, user, now - windowSize);
    forall u | u in admitted
      ensures TracksLog(QueueOf(c, u), admitted[u], now, windowSize)
    {
      var q := QueueOf(h, u);
      if u == user && user in h {
        DropStaleKeepsTracking(q, admitted[u], clock, now, windowSize);
        assert QueueOf(c, u) == DropStale(q, now - windowSize);
      } else {
        assert QueueOf(c, u) == q;
      }
    }
  }

  /** Storing and logging an admission at `now` keeps the history tracking the log. */
  lemma AdmissionKeepsTracking(h: History, admitted: History, user: UserId, now: real, windowSize: real)
    requires Tracks(h, admitted, now, windowSize)
    ensures Tracks(Appended(h, user, now), Appended(admitted, user, now), now, windowSize)
  {
    assert TracksLog(QueueOf(h, user), QueueOf(admitted, user), now, windowSize);
    AppendKeepsTracking(QueueOf(h, user), QueueOf(admitted, user), now, windowSize);
  }

  /**
   * With a limit of at least one, admitting at `now` a user whose tracking
   * queue has room keeps every window within the limit.
   */
  lemma AdmissionKeepsWindowBound(h: History, admitted: History, user: UserId, now: real, windowSize: real, maxRequests: int)
    requires Tracks(h, admitted, now, windowSize) && Admits(h, user, maxRequests) && 1 <= maxRequests
    requires WindowBounded(admitted, windowSize, maxRequests)
    ensures WindowBounded(Appended(admitted, user, now), windowSize, maxRequests)
  {
    var admitted' := Appended(admitted, user, now);
    var q, log := QueueOf(h, user), QueueOf(admitted, user);
    assert TracksLog(q, log, now, windowSize);
    forall u, t | u in admitted'
      ensures CountInWindow(admitted'[u], t, windowSize) <= maxRequests
    {
      if u == user {
        if user !in admitted {
          assert CountInWindow([], t, windowSize) == 0;
        }
        AdmissionStaysWithinWindow(q, log, now, t, windowSize, maxRequests);
      }
    }
  }

  /**
   * The limiter's promise over one recording call: if the stored queues track
   * the admission log as of an instant no later than `now`, and no window
   * holds more than `maxRequests >= 1` admissions of a user, then after the
   * call (the admission logged when made) both still hold.
   */
  lemma RecordKeepsWindowBound(h: History, admitted: History, clock: real, user: UserId, now: real, windowSize: real, maxRequests: int)
    requires Tracks(h, admitted, clock, windowSize) && clock <= now
    requires 1 <= maxRequests && WindowBounded(admitted, windowSize, maxRequests)
    ensures var admitted' := if Admitted(h, user, now, windowSize, maxRequests) then Appended(admitted, user, now) else admitted;
      && Tracks(AfterRecord(h, user, now, windowSize, maxRequests), admitted', now, windowSize)
      && WindowBounded(admitted', windowSize, maxRequests)
  {
    var c := Cleaned(h, user, now - windowSize);
    CleanupKeepsTracking(h, admitted, clock, user, now, windowSize);
    if Admits(c, user, maxRequests) {
      AdmissionKeepsTracking(c, admitted, user, now, windowSize);
      AdmissionKeepsWindowBound(c, admitted, user, now, windowSize, maxRequests);
    }
  }

  /**
   * What the ghost logs of a limiter promise: `instants` are the instants of
   * the calls so far, `admitted` every admission.  Before any call both the
   * history and the log are empty; while the instants have not gone back,
   * the history tracks the log as of the latest call, and with a limit of at
   * least one no window holds more than `maxRequests` admissions of one user.
   */
  ghost predicate Monitored(h: History, admitted: History, instants: seq<real>, windowSize: real, maxRequests: int) {
    && (instants == [] ==> h == map[] && admitted == map[])
    && (Sorted(instants) && instants != [] ==> Tracks(h, admitted, instants[|instants| - 1], windowSize))
    && (Sorted(instants) && 1 <= maxRequests ==> WindowBounded(admitted, windowSize, maxRequests))
  }

  /** A cleanup call at `now` keeps the logs' promise. */
  lemma CleanupKeepsMonitored(h: History, admitted: History, instants: seq<real>, user: UserId, now: real, windowSize: real, maxRequests: int)
    requires Monitored(h, admitted, instants, windowSize, maxRequests)
    ensures Monitored(Cleaned(h, user, now - windowSize), admitted, instants + [now], windowSize, maxRequests)
  {
    var instants' := instants + [now];
    if Sorted(instants') {
      SortedSnoc(instants, now);
      var clock := if instants == [] then now else instants[|instants| - 1];
      CleanupKeepsTracking(h, admitted, clock, user, now, windowSize);
      assert instants'[|instants'| - 1] == now;
    }
  }

  /**
   * Storing and logging an admission of a user with room, at the instant of
   * the latest call, keeps the logs' promise.
   */
  lemma AdmissionKeepsMonitored(h: History, admitted: History, instants: seq<real>, user: UserId, windowSize: real, maxRequests: int)
    requires instants != [] && Admits(h, user, maxRequests)
    requires Monitored(h, admitted, instants, windowSize, maxRequests)
    ensures var now := instants[|instants| - 1];
      Monitored(Appended(h, user, now), Appended(admitted, user, now), instants, windowSize, maxRequests)
  {
    var now := instants[|instants| - 1];
    if Sorted(instants) {
      AdmissionKeepsTracking(h, admitted, user, now, windowSize);
      if 1 <= maxRequests {
        AdmissionKeepsWindowBound(h, admitted, user, now, windowSize, maxRequests);
      }
    }
  }
}
