/**
 * The throttling rate limiter: for every user it keeps only the instant of
 * its last admitted message, and admits a new one once `minInterval` seconds
 * have passed since then.  The admission test and the wait are reads of the
 * state (functions); recording overwrites one entry (a method).  A ghost log
 * of every admission carries the spacing property the limiter exists for.
 */
module RateLimiterThrottling {
  import opened Durations
  import opened Users

  /** One admitted message: whose, and when. */
  datatype Admission = Admission(user: UserId, time: real)

  /** Any two admissions of the same user lie at least `minInterval` apart. */
  ghost predicate Spaced(log: seq<Admission>, minInterval: real) {
    forall i, j :: 0 <= i < j < |log| && log[i].user == log[j].user ==> minInterval <= log[j].time - log[i].time
  }

  class ThrottlingRateLimiter {
    const minInterval: real
    var lastMessageTime: map<UserId, real>
    /** Every admission so far, in the order of the calls that made them. */
    ghost var admissions: seq<Admission>

    /**
     * The map holds, for every user that was ever admitted, the instant of
     * one of its admissions; for a non-negative interval that instant is the
     * latest of them, and the admissions are spaced.
     */
    ghost predicate Valid()
      reads this
    {
      && (forall i :: 0 <= i < |admissions| ==> admissions[i].user in lastMessageTime)
      && (forall u :: u in lastMessageTime ==> Admission(u, lastMessageTime[u]) in admissions)
      && (0.0 <= minInterval ==>
           && (forall i :: 0 <= i < |admissions| ==> admissions[i].time <= lastMessageTime[admissions[i].user])
           && Spaced(admissions, minInterval))
    }

    constructor (minInterval: real := 10.0)
      ensures Valid()
      ensures this.minInterval == minInterval
      ensures lastMessageTime == map[] && admissions == []
    {
      this.minInterval := minInterval;
      lastMessageTime := map[];
      admissions := [];
    }

    /**
     * Whether a message from `user` at `now` is admitted: always for a user
     * never admitted, otherwise once `minInterval` has passed since its last
     * admission.
     */
    function CanSendMessage(user: UserId, now: real): (ok: bool)
      reads this
      ensures user !in lastMessageTime ==> ok
      ensures user in lastMessageTime ==> (ok <==> lastMessageTime[user] + minInterval <= now)
    {
      if user !in lastMessageTime then true
      else now - lastMessageTime[user] >= minInterval
    }

    /**
     * Records a message from `user` at `now` if it is admitted, overwriting
     * the user's last instant; a refused message changes nothing.
     */
    method RecordMessage(user: UserId, now: real) returns (ok: bool)
      requires Valid()
      modifies this
      ensures Valid()
      ensures ok == old(CanSendMessage(user, now))
      ensures lastMessageTime == if ok then old(lastMessageTime)[user := now] else old(lastMessageTime)
      ensures admissions == if ok then old(admissions) + [Admission(user, now)] else old(admissions)
    {
      ok := CanSendMessage(user, now);
      if ok {
        lastMessageTime := lastMessageTime[user := now];
        admissions := admissions + [Admission(user, now)];
      }
    }

    /**
     * How long `user` must wait at `now`: zero for a user never admitted,
     * otherwise what is left of `minInterval` since its last admission,
     * clamped at zero.  It is zero exactly when a message is admitted.
     */
    function TimeUntilNextAllowed(user: UserId, now: real): (wait: real)
      reads this
      ensures 0.0 <= wait
      ensures wait == 0.0 <==> CanSendMessage(user, now)
      ensures user in lastMessageTime ==> lastMessageTime[user] + minInterval <= now + wait
    {
      if user !in lastMessageTime then 0.0
      else ClampAtZero(minInterval - (now - lastMessageTime[user]))
    }
  }

  /**
   * The wait is exact: from `now` on, a message from `user` is admitted at
   * instant `t` exactly when `t` is at least `now` plus the wait.
   */
  lemma WaitTimeIsExact(limiter: ThrottlingRateLimiter, user: UserId, now: real, t: real)
    requires now <= t
    ensures limiter.CanSendMessage(user, t) <==> now + limiter.TimeUntilNextAllowed(user, now) <= t
  {
  }

  /**
   * The spacing promise: with a non-negative interval, two admissions of the
   * same user, whatever the order of the instants the calls carried, lie at
   * least `minInterval` apart.
   */
  lemma AdmissionsAreSpaced(limiter: ThrottlingRateLimiter, i: nat, j: nat)
    requires limiter.Valid() && 0.0 <= limiter.minInterval
    requires i < j < |limiter.admissions| && limiter.admissions[i].user == limiter.admissions[j].user
    ensures limiter.minInterval <= limiter.admissions[j].time - limiter.admissions[i].time
  {
  }

  /** An interval of 10 seconds: a client of the contracts above. */
  method IntervalOfTenScenario() {
    var limiter := new ThrottlingRateLimiter(10.0);
    var ok := limiter.RecordMessage("1", 0.0);
    assert ok;
    ok := limiter.RecordMessage("1", 9.0);
    assert !ok;
    assert limiter.TimeUntilNextAllowed("1", 9.0) == 1.0;
    ok := limiter.RecordMessage("1", 10.0);
    assert ok;
  }
}
