/**
 What one login answers and leaves in the store, in the numbers of the code, and what the failure
 number in an answer counts along a run.
 */
module LoginOutcomes {
  import opened Wrappers
  import opened Redis
  import opened LoginThrottle

  /** The limits, as the policy states them: 20 a minute, 5 failures, 15 minutes. */
  lemma LimitsInNumbers()
    ensures RATE_WINDOW == 60_000 && LOCKOUT_WINDOW == 900_000
    ensures 2 * IP_RATE_LIMIT - 1 == 39 && 2 * FAIL_LOCKOUT_THRESHOLD - 2 == 8
  {
  }

  predicate Unlocked(s: Store, a: Attempt) {
    CountOf(s, a.at, RateKey(a.ip)) < 20 && !Live(s, a.at, LockKey(a.username))
  }

  /** Which answer is given: the address decides first, then the lock, then the account's own fields. */
  lemma AnswersExactly(s: Store, a: Attempt)
    ensures var outcome := LoginStep(s, a).1;
            var knows := a.account.Some? && a.account.value.enabled && a.account.value.passwordMatches;
            && (outcome.IpLimited? <==> CountOf(s, a.at, RateKey(a.ip)) >= 20)
            && (outcome.AccountLocked? <==> CountOf(s, a.at, RateKey(a.ip)) < 20 && Live(s, a.at, LockKey(a.username)))
            && (outcome.LoggedIn? <==> Unlocked(s, a) && knows)
            && (outcome.BadCredentials? <==> Unlocked(s, a) && !knows)
            && (outcome.BadCredentials? ==> outcome.attempt == CountOf(s, a.at, FailKey(a.username)) + 1)
  {
  }

  predicate SameEntry(s: Store, s': Store, k: Key) {
    (k in s' <==> k in s) && (k in s ==> s'[k] == s[k])
  }

  /** Every login counts its address, whatever the answer, and touches no key of another user or address. */
  lemma CountsItsAddress(s: Store, a: Attempt)
    ensures var s' := LoginStep(s, a).0;
            && CountOf(s', a.at, RateKey(a.ip)) == CountOf(s, a.at, RateKey(a.ip)) + 1
            && s'[RateKey(a.ip)].expireAt == (if Live(s, a.at, RateKey(a.ip)) && s[RateKey(a.ip)].count > 0
                                              then s[RateKey(a.ip)].expireAt else Some(a.at + 60_000))
            && forall k :: k !in {RateKey(a.ip), FailKey(a.username), LockKey(a.username)} ==> SameEntry(s, s', k)
  {
  }

  /** A refusal at either check leaves the user's counter and lock as they were. */
  lemma RefusedEarlyLeavesUser(s: Store, a: Attempt)
    requires LoginStep(s, a).1.IpLimited? || LoginStep(s, a).1.AccountLocked?
    ensures SameEntry(s, LoginStep(s, a).0, FailKey(a.username)) && SameEntry(s, LoginStep(s, a).0, LockKey(a.username))
  {
  }

  /** A successful login leaves the user neither a counter nor a lock. */
  lemma LoginClears(s: Store, a: Attempt)
    requires LoginStep(s, a).1.LoggedIn?
    ensures FailKey(a.username) !in LoginStep(s, a).0 && LockKey(a.username) !in LoginStep(s, a).0
  {
  }

  /** A refused password counts; the first starts the quarter of an hour, the fifth and later lock for one. */
  lemma RefusalCounts(s: Store, a: Attempt)
    requires LoginStep(s, a).1.BadCredentials?
    ensures var s', n := LoginStep(s, a).0, LoginStep(s, a).1.attempt;
            && Live(s', a.at, FailKey(a.username)) && s'[FailKey(a.username)].count == n
            && s'[FailKey(a.username)].expireAt == (if n == 1 then Some(a.at + 900_000) else s[FailKey(a.username)].expireAt)
            && (if n >= 5 then LockKey(a.username) in s' && s'[LockKey(a.username)].expireAt == Some(a.at + 900_000)
                else SameEntry(s, s', LockKey(a.username)))
  {
  }

  // ---------------------------------------------------------------------------
  // What the number counts
  // ---------------------------------------------------------------------------

  /** The refused passwords of a user among the first `n` attempts of a run. */
  function Refusals(s: Store, run: seq<Attempt>, username: string, n: nat): nat
    requires n <= |run|
    decreases |run|
  {
    if n == 0 then 0 else
    var (s', outcome) := LoginStep(s, run[0]);
    (if run[0].username == username && outcome.BadCredentials? then 1 else 0) + Refusals(s', run[1..], username, n - 1)
  }

  predicate NoLoginBefore(s: Store, run: seq<Attempt>, username: string, j: nat)
    requires j <= |run|
  {
    forall i :: 0 <= i < j && run[i].username == username ==> !Outcomes(s, run)[i].LoggedIn?
  }

  /** `r` refusals have been counted since `start`, all of them still while the first is younger than 15 minutes. */
  predicate Counted(s: Store, now: int, username: string, start: int, r: nat) {
    && start <= now && CountOf(s, now, FailKey(username)) <= r
    && (now < start + 900_000 ==>
          && CountOf(s, now, FailKey(username)) == r
          && (r > 0 ==> s[FailKey(username)].expireAt.Some? && s[FailKey(username)].expireAt.value >= start + 900_000))
  }

  lemma CountedLater(s: Store, now: int, later: int, username: string, start: int, r: nat)
    requires Counted(s, now, username, start, r) && now <= later
    ensures Counted(s, later, username, start, r)
  {
  }

  lemma CountedNext(s: Store, a: Attempt, username: string, start: int, r: nat)
    requires Counted(s, a.at, username, start, r)
    requires a.username == username ==> !LoginStep(s, a).1.LoggedIn?
    ensures var refused := a.username == username && LoginStep(s, a).1.BadCredentials?;
            Counted(LoginStep(s, a).0, a.at, username, start, r + if refused then 1 else 0)
  {
    CountsItsAddress(s, a);
    var fail := FailKey(username);
    if a.username != username {
      assert SameEntry(s, LoginStep(s, a).0, fail);
    } else if LoginStep(s, a).1.BadCredentials? {
      RefusalCounts(s, a);
    } else {
      AnswersExactly(s, a);
      RefusedEarlyLeavesUser(s, a);
    }
  }

  lemma {:induction false} NumberCounts(s: Store, now: int, run: seq<Attempt>, username: string, start: int, r: nat, j: nat)
    requires Counted(s, now, username, start, r) && InOrder(run, now) && j < |run|
    requires run[j].username == username && Outcomes(s, run)[j].BadCredentials? && NoLoginBefore(s, run, username, j)
    ensures var n := Outcomes(s, run)[j].attempt;
            && n <= r + Refusals(s, run, username, j) + 1
            && (run[j].at < start + 900_000 ==> n == r + Refusals(s, run, username, j) + 1)
    decreases |run|
  {
    var a := run[0];
    CountedLater(s, now, a.at, username, start, r);
    if j == 0 {
      AnswersExactly(s, a);
    } else {
      var (s', outcome) := LoginStep(s, a);
      assert Outcomes(s, run)[0] == outcome;
      CountedNext(s, a, username, start, r);
      forall i | 0 <= i < |run[1..]| ensures Outcomes(s', run[1..])[i] == Outcomes(s, run)[i + 1] && run[1..][i] == run[i + 1] {
      }
      NumberCounts(s', a.at, run[1..], username, start,
                   r + if a.username == username && outcome.BadCredentials? then 1 else 0, j - 1);
    }
  }

  /**
   After a login the numbering starts again: the next refusals of that user are numbered by the
   refusals since the login, exactly for the 15 minutes after it and never higher later.
   */
  lemma NumberedSinceLogin(s: Store, login: Attempt, run: seq<Attempt>, j: nat)
    requires LoginStep(s, login).1.LoggedIn? && InOrder(run, login.at) && j < |run|
    requires var s' := LoginStep(s, login).0;
             && run[j].username == login.username && Outcomes(s', run)[j].BadCredentials?
             && NoLoginBefore(s', run, login.username, j)
    ensures var s' := LoginStep(s, login).0;
            var n := Outcomes(s', run)[j].attempt;
            && n <= Refusals(s', run, login.username, j) + 1
            && (run[j].at < login.at + 900_000 ==> n == Refusals(s', run, login.username, j) + 1)
  {
    LoginClears(s, login);
    NumberCounts(LoginStep(s, login).0, login.at, run, login.username, login.at, 0, j);
  }
}
