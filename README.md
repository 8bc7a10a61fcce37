# Per-user rate limiters

This project models two independent rate limiters. Each decides, per user,
whether a new message is admitted now, records admitted messages, and reports
how long a user must wait before its next message is admitted.

- **Sliding window** (`SlidingWindowRateLimiter`): for every user it keeps a
  queue of admission instants, oldest first. Before each decision it cleans
  that user's queue. Cleanup pops every instant strictly older than
  `now - windowSize` from the front, and removes the user once the queue is
  empty. A message is admitted when the user has no queue left, or when its
  queue holds fewer than `maxRequests` instants.
- **Throttling** (`ThrottlingRateLimiter`): for every user it keeps only the
  instant of its last admitted message. A message is admitted for a user never
  seen, or once `minInterval` has passed since that instant.

Files:

- `users.dfy`: module `Users`, the user identifier both limiters key on.
- `durations.dfy`: module `Durations`, the clamp `max(0, d)` both limiters apply to a wait.
- `window.dfy`: module `Window`, the sliding-window state as a value
  (`map<UserId, seq<real>>`). It holds the functions that specify cleanup,
  admission, recording and the wait, and the lemmas about them.
- `rate_limiter.dfy`: module `RateLimiter`, the class
  `SlidingWindowRateLimiter`. Its map field is changed in place. Its methods
  are proved against module `Window`. The cleanup is the source's `while`
  loop that pops the front. Two ghost logs record the instant of every call
  and every admitted message. They carry the limiter's promise: while the
  calls' instants never go back and the limit is at least one, no window
  `[t - windowSize, t]` holds more than `maxRequests` admitted messages of
  one user (`RateLimiter.AtMostMaxRequestsPerWindow`).
- `rate_limiter_throttling.dfy`: module `RateLimiterThrottling`, the class
  `ThrottlingRateLimiter`. The admission test and the wait only read the state,
  so they are functions. Recording overwrites one map entry, so it is a method.
  A ghost log of every admission carries the spacing invariant.

Instants and durations are exact `real`s. The clock is the explicit parameter
`now` of every operation.

A limit of zero does not deny every user: the test
`user_id not in self.users_history or ...` (rate_limiter.py:50) admits a user
without history whatever the limit (`Window.ZeroLimitAdmitsOnlyAbsent`).

The two limiters also differ at the boundary of the wait. In the sliding
window, cleanup drops only instants strictly older than the window start. So a
refused user is admitted at any instant strictly after `now + wait`, but not at
`now + wait` itself (`Window.WaitTimeIsExact`). The throttling limiter admits
from `now + wait` on (`RateLimiterThrottling.WaitTimeIsExact`).

## Model

| member | source | states |
|---|---|---|
| `Durations.ClampAtZero` | rate_limiter.py:86 | the reported wait `max(0, d)` is never negative, is at least `d`, and is `0` or `d` |
| `Window.StaleCount` | rate_limiter.py:31-34 | the number of instants the cleanup loop pops is at most the queue's length; every popped instant is strictly before the window start; the first instant kept, if any, is inside the window (cleanup keeps the suffix after them) |
| `Window.Cleaned` | rate_limiter.py:30-37 | cleaning one user leaves every other user's entry as it was; the user keeps a key only if its cleaned queue is non-empty, and then maps to that queue |
| `Window.WaitTime` | rate_limiter.py:80-86 | the wait is never negative; it is zero while the user is admitted; otherwise, after waiting it, the oldest instant plus the window size is reached |
| `Window.ExpiredQueueIsEmptied` | rate_limiter.py:33-37 | cleanup empties a queue, so its key is removed, exactly when every instant in it is older than the window start |
| `Window.DropStaleKeepsWindow` | rate_limiter.py:31-34 | on an oldest-first queue, cleanup keeps the queue oldest-first and every kept instant is at or after the window start |
| `Window.CleanQueueIsFixed` | rate_limiter.py:33 | a queue whose front is inside the window is left unchanged by cleanup |
| `Window.CleanupIsIdempotent` | rate_limiter.py:30-37 | cleaning twice at the same instant gives the same history as cleaning once, so a repeated check at the same instant changes nothing and answers the same |
| `Window.CleanupPreservesInvariants` | rate_limiter.py:30-37 | cleanup keeps every queue non-empty, within the limit, and oldest-first with no instant after `now` |
| `Window.AppendPreservesInvariants` | rate_limiter.py:63-65 | appending `now` keeps every queue non-empty; it keeps queues within a positive limit when the user had room; it keeps them oldest-first when no stored instant is after `now` |
| `Window.RecordPreservesInvariants` | rate_limiter.py:61-67 | with a limit of at least one, recording never lets a queue exceed the limit; with a clock that does not go back, queues stay oldest-first; queues stay non-empty |
| `Window.OtherUsersUnaffected` | rate_limiter.py:30-65 | cleaning, checking or recording for one user never changes whether another user is admitted, at any instant |
| `Window.WaitTimeIsExact` | rate_limiter.py:77-86 | on queues within the limit and oldest-first, a refused user is admitted at instant `t` (with nothing recorded in between) exactly when `t` is strictly after `now` plus the wait; an admitted user stays admitted |
| `Window.DropStaleStep` | rate_limiter.py:33-34 | popping one stale instant from the front does not change what cleanup finally keeps (the step of the cleanup loop) |
| `Window.DropStaleKeepsTracking` | rate_limiter.py:31-34 | a queue that is a suffix of the user's admitted instants, with every dropped one older than `clock - windowSize`, stays so after cleanup at any `now >= clock`, with `now` as the new clock |
| `Window.AppendKeepsTracking` | rate_limiter.py:63-65 | appending `now` to both the queue and the admission log keeps the queue a suffix of the log with the same dropped instants |
| `Window.AdmissionStaysWithinWindow` | rate_limiter.py:50-65 | if the queue tracks the log at `now` and has fewer than `maxRequests` instants, admitting at `now` keeps any window `[t - windowSize, t]` that held at most `maxRequests` admissions within that bound: every logged admission inside a window that contains `now` is still in the queue |
| `Window.CleanupKeepsTracking` | rate_limiter.py:30-37 | cleanup at an instant no earlier than the last one keeps every user's queue tied to its admission log as of the new instant |
| `Window.AdmissionKeepsTracking` | rate_limiter.py:63-65 | storing and logging an admission at `now` keeps every queue tied to the log |
| `Window.AdmissionKeepsWindowBound` | rate_limiter.py:50-65 | with a limit of at least one, admitting a user whose queue has room keeps every user's every window within `maxRequests` admissions |
| `Window.RecordKeepsWindowBound` | rate_limiter.py:54-67 | one recording call at an instant no earlier than the last keeps the queues tied to the admission log (extended by the admission when one is made), and keeps every window within `maxRequests` admissions of a user |
| `Window.CleanupKeepsMonitored` | rate_limiter.py:30-37 | a cleanup call, logged with its instant, keeps the promise of the logs: empty before any call; while the instants never go back, queues tied to the log and every window within the limit |
| `Window.AdmissionKeepsMonitored` | rate_limiter.py:61-65 | storing and logging an admission at the instant of the latest call, for a user with room, keeps that promise |
| `Window.ZeroLimitAdmitsOnlyAbsent` | rate_limiter.py:50 | with a limit of zero or less, a user is admitted exactly when it has no queue after cleanup; a user without history is admitted |
| `RateLimiter.SlidingWindowRateLimiter.constructor` | rate_limiter.py:10-21 | stores the window size (default 10) and the limit (default 1); the history and both logs start empty |
| `RateLimiter.SlidingWindowRateLimiter.CleanupWindow` | rate_limiter.py:23-37 | the loop that pops stale instants leaves exactly `Cleaned(old history)`, from any history, and touches nothing else |
| `RateLimiter.SlidingWindowRateLimiter.CanSendMessage` | rate_limiter.py:39-52 | the new history is the cleaned old one; the answer is true iff the user then has no queue or fewer than `maxRequests` instants; the call's instant is logged; the limit, ordering and window-bound invariants are kept |
| `RateLimiter.SlidingWindowRateLimiter.RecordMessage` | rate_limiter.py:54-67 | returns the admission decision; when admitted, `now` is appended at the back of the cleaned queue (created if absent) and to the admission log; otherwise the history is only cleaned; with a limit of at least one no queue exceeds it, with a clock that does not go back queues stay oldest-first, and the window bound is kept |
| `RateLimiter.SlidingWindowRateLimiter.TimeUntilNextAllowed` | rate_limiter.py:69-86 | the new history is the cleaned old one; the wait is `WaitTime` of it: zero while admitted, otherwise `max(0, windowSize - (now - oldest))`; the call's instant is logged |
| `RateLimiter.AtMostMaxRequestsPerWindow` | rate_limiter.py:39-67 | while every call carried an instant no earlier than the call before and the limit is at least one, any window `[t - windowSize, t]` holds at most `maxRequests` admitted messages of a user |
| `RateLimiterThrottling.ThrottlingRateLimiter.constructor` | rate_limiter_throttling.py:12-19 | stores the interval (default 10); no user has a last instant; the admission log is empty |
| `RateLimiterThrottling.ThrottlingRateLimiter.CanSendMessage` | rate_limiter_throttling.py:21-32 | a user never admitted is admitted; otherwise admitted iff at least `minInterval` has passed since its last instant; as a function it cannot change the state |
| `RateLimiterThrottling.ThrottlingRateLimiter.RecordMessage` | rate_limiter_throttling.py:34-44 | returns the admission decision; on success only the user's entry becomes `now` and the admission is logged; on failure nothing changes; the spacing invariant is kept |
| `RateLimiterThrottling.ThrottlingRateLimiter.TimeUntilNextAllowed` | rate_limiter_throttling.py:46-58 | the wait is never negative; it is zero exactly when `CanSendMessage` admits at the same instant; after waiting it, `minInterval` has passed since the last instant |
| `RateLimiterThrottling.WaitTimeIsExact` | rate_limiter_throttling.py:46-58 | from `now` on, a user is admitted at instant `t` exactly when `t` is at least `now` plus the wait |
| `RateLimiterThrottling.AdmissionsAreSpaced` | rate_limiter_throttling.py:28-44 | with a non-negative interval, any two admissions of the same user lie at least `minInterval` apart, whatever order the calls' instants come in |

## Left out

- The wall clock `time.time()`: every operation takes the instant `now` as a parameter instead.
- The second clock read in `record_message` (rate_limiter.py:62, rate_limiter_throttling.py:42): the model checks and stores the same `now`. The source stores an instant read slightly after the check.
- IEEE floating point: instants and durations are exact reals. The window size is typed `int` in the source but used in float arithmetic, so it is a real here too.
- The demonstration drivers `test_rate_limiter` and `test_throttling_limiter`, their ANSI colour constants, `time.sleep`, `random.uniform`, and the `__main__` entry points. They only print and assert nothing.
- Concurrent callers: the source has no locking, and the model treats every call as one atomic step.
- RateLimiter.AtMostMaxRequestsPerWindow: proved only while the calls' instants never go back and the limit is at least one. With a limit of zero, a user without history is still admitted (rate_limiter.py:50), so windows may hold one admission. With a clock that goes back, cleanup may already have dropped admissions that a later window contains.
- RateLimiterThrottling.AdmissionsAreSpaced: proved for a non-negative `minInterval` only. With a negative interval and a clock that goes back, the last instant need not be the latest admission, so the log invariant does not hold.
