/**
 Login throttling: a per-address counter, a per-user failure counter and a per-user lock.
 The code compares one counter with a constant; what it guarantees over time is proved here.
 */
module LoginThrottle {
  import opened Wrappers
  import opened Redis

  const IP_RATE_LIMIT: nat := 20
  const IP_RATE_TTL: nat := 60
  const FAIL_LOCKOUT_THRESHOLD: nat := 5
  const FAIL_LOCKOUT_TTL: nat := 900

  /** What the user table says about the name in a login. */
  datatype Account = Account(enabled: bool, passwordMatches: bool)

  datatype Outcome =
    | IpLimited
    | AccountLocked
    | BadCredentials(attempt: nat)
    | LoggedIn

  // ---------------------------------------------------------------------------
  // The effect of each step on the store, as functions
  // ---------------------------------------------------------------------------

  function AfterIpRate(s: Store, now: int, ip: string): Store {
    var counted := AfterIncr(s, now, RateKey(ip));
    if counted[RateKey(ip)].count == 1 then AfterExpire(counted, now, RateKey(ip), IP_RATE_TTL) else counted
  }

  function AfterFailure(s: Store, now: int, username: string): Store {
    var counted := AfterIncr(s, now, FailKey(username));
    var count := counted[FailKey(username)].count;
    var timed := if count == 1 then AfterExpire(counted, now, FailKey(username), FAIL_LOCKOUT_TTL) else counted;
    if count >= FAIL_LOCKOUT_THRESHOLD then AfterSetEx(timed, now, LockKey(username), FAIL_LOCKOUT_TTL) else timed
  }

  predicate Accepts(account: Option<Account>) {
    account.Some? && account.value.enabled && account.value.passwordMatches
  }

  datatype Attempt = Attempt(at: int, username: string, ip: string, account: Option<Account>)

  function LoginStep(s: Store, a: Attempt): (Store, Outcome) {
    var counted := AfterIpRate(s, a.at, a.ip);
    if CountOf(s, a.at, RateKey(a.ip)) + 1 > IP_RATE_LIMIT then (counted, IpLimited)
    else if Live(counted, a.at, LockKey(a.username)) then (counted, AccountLocked)
    else if Accepts(a.account) then (counted - {FailKey(a.username), LockKey(a.username)}, LoggedIn)
    else (AfterFailure(counted, a.at, a.username), BadCredentials(CountOf(counted, a.at, FailKey(a.username)) + 1))
  }

  // ---------------------------------------------------------------------------
  // The code, step by step against the server
  // ---------------------------------------------------------------------------

  method CheckIpRate(r: Server, clientIp: string) returns (allowed: bool)
    modifies r`store
    ensures r.store == AfterIpRate(old(r.store), r.now, clientIp)
    ensures allowed <==> CountOf(old(r.store), r.now, RateKey(clientIp)) < IP_RATE_LIMIT
  {
    var key := RateKey(clientIp);
    var count := r.Incr(key);
    if count == 1 {
      r.Expire(key, IP_RATE_TTL);
    }
    allowed := !(count > IP_RATE_LIMIT);
  }

  method CheckLockout(r: Server, username: string) returns (allowed: bool)
    ensures allowed <==> !Live(r.store, r.now, LockKey(username))
  {
    var locked := r.Exists(LockKey(username));
    allowed := !locked;
  }

  method RecordFailedLogin(r: Server, username: string) returns (count: nat)
    modifies r`store
    ensures r.store == AfterFailure(old(r.store), r.now, username)
    ensures count == CountOf(old(r.store), r.now, FailKey(username)) + 1
  {
    var failKey := FailKey(username);
    count := r.Incr(failKey);
    if count == 1 {
      r.Expire(failKey, FAIL_LOCKOUT_TTL);
    }
    if count >= FAIL_LOCKOUT_THRESHOLD {
      r.SetEx(LockKey(username), FAIL_LOCKOUT_TTL);
    }
  }

  method ClearLoginFailures(r: Server, username: string)
    modifies r`store
    ensures r.store == old(r.store) - {FailKey(username), LockKey(username)}
  {
    r.Delete(FailKey(username), LockKey(username));
  }

  method Login(r: Server, username: string, clientIp: string, account: Option<Account>) returns (outcome: Outcome)
    modifies r`store
    ensures (r.store, outcome) == LoginStep(old(r.store), Attempt(r.now, username, clientIp, account))
  {
    var admitted := CheckIpRate(r, clientIp);
    if !admitted {
      return IpLimited;
    }
    var unlocked := CheckLockout(r, username);
    if !unlocked {
      return AccountLocked;
    }
    if account.None? || !account.value.enabled || !account.value.passwordMatches {
      var attempt := RecordFailedLogin(r, username);
      return BadCredentials(attempt);
    }
    ClearLoginFailures(r, username);
    return LoggedIn;
  }

  // ---------------------------------------------------------------------------
  // Runs
  // ---------------------------------------------------------------------------

  predicate InOrder(run: seq<Attempt>, from: int) {
    (run == [] || from <= run[0].at) && forall i, j :: 0 <= i < j < |run| ==> run[i].at <= run[j].at
  }

  function Outcomes(s: Store, run: seq<Attempt>): (outcomes: seq<Outcome>)
    ensures |outcomes| == |run|
    decreases |run|
  {
    if run == [] then [] else
    var (s', outcome) := LoginStep(s, run[0]);
    [outcome] + Outcomes(s', run[1..])
  }

  predicate Within(a: Attempt, from: int, to: int) { from <= a.at < to }

  /** How many attempts of `username` in the interval had their password checked and refused. */
  function FailedChecks(run: seq<Attempt>, outcomes: seq<Outcome>, username: string, from: int, to: int): nat
    requires |run| == |outcomes|
  {
    if run == [] then 0 else
    (if run[0].username == username && outcomes[0].BadCredentials? && Within(run[0], from, to) then 1 else 0)
    + FailedChecks(run[1..], outcomes[1..], username, from, to)
  }

  /** How many attempts from `ip` in the interval got past the address check. */
  function Admitted(run: seq<Attempt>, outcomes: seq<Outcome>, ip: string, from: int, to: int): nat
    requires |run| == |outcomes|
  {
    if run == [] then 0 else
    (if run[0].ip == ip && !outcomes[0].IpLimited? && Within(run[0], from, to) then 1 else 0)
    + Admitted(run[1..], outcomes[1..], ip, from, to)
  }

  predicate NoLogin(run: seq<Attempt>, outcomes: seq<Outcome>, username: string, from: int, to: int)
    requires |run| == |outcomes|
  {
    forall i :: 0 <= i < |run| && run[i].username == username && Within(run[i], from, to) ==> !outcomes[i].LoggedIn?
  }

  // ---------------------------------------------------------------------------
  // Lockout: at most 8 refused passwords in any 900 seconds without a login
  // ---------------------------------------------------------------------------

  const LOCKOUT_WINDOW: int := FAIL_LOCKOUT_TTL * SECOND

  /** What every login keeps about one user: counters expire, and never after the lock they armed. */
  predicate LockoutInvariant(s: Store, now: int, username: string) {
    var fail, lock := FailKey(username), LockKey(username);
    && (Live(s, now, fail) ==>
          s[fail].count >= 1 && s[fail].expireAt.Some? && s[fail].expireAt.value <= now + LOCKOUT_WINDOW)
    && (Live(s, now, lock) ==> s[lock].expireAt.Some?)
    && (Live(s, now, fail) && Live(s, now, lock) ==> s[fail].expireAt.value <= s[lock].expireAt.value)
    && (Live(s, now, fail) && !Live(s, now, lock) ==> s[fail].count < FAIL_LOCKOUT_THRESHOLD)
  }

  lemma LockoutInvariantKept(s: Store, now: int, a: Attempt, username: string)
    requires LockoutInvariant(s, now, username) && now <= a.at
    ensures LockoutInvariant(LoginStep(s, a).0, a.at, username)
  {
    assert LockoutInvariant(s, a.at, username);
  }

  /** The most refusals still possible for `username` from `now` until `end`, if nobody logs in. */
  function RefusalsLeft(s: Store, now: int, username: string, end: int): nat
    requires LockoutInvariant(s, now, username)
  {
    var fail, lock := FailKey(username), LockKey(username);
    if end <= now then 0
    else if Live(s, now, lock) then
      if end <= s[lock].expireAt.value then 0 else FAIL_LOCKOUT_THRESHOLD
    else if Live(s, now, fail) then
      FAIL_LOCKOUT_THRESHOLD - s[fail].count
      + if end <= s[fail].expireAt.value then 0 else FAIL_LOCKOUT_THRESHOLD - 1
    else FAIL_LOCKOUT_THRESHOLD
  }

  /** Each refusal uses up one of the refusals left, and nothing else adds to them. */
  lemma RefusalsLeftDrop(s: Store, now: int, a: Attempt, username: string, end: int)
    requires LockoutInvariant(s, now, username) && now <= a.at < end <= now + LOCKOUT_WINDOW
    requires a.username == username ==> !LoginStep(s, a).1.LoggedIn?
    ensures LockoutInvariant(LoginStep(s, a).0, a.at, username)
    ensures RefusalsLeft(LoginStep(s, a).0, a.at, username, end)
         + (if a.username == username && LoginStep(s, a).1.BadCredentials? then 1 else 0)
         <= RefusalsLeft(s, now, username, end)
  {
    LockoutInvariantKept(s, now, a, username);
  }

  lemma {:induction false} RefusalsBounded(s: Store, now: int, run: seq<Attempt>, username: string, from: int, end: int)
    requires LockoutInvariant(s, now, username) && InOrder(run, now)
    requires from <= now && end <= now + LOCKOUT_WINDOW
    requires NoLogin(run, Outcomes(s, run), username, from, end)
    ensures FailedChecks(run, Outcomes(s, run), username, from, end) <= RefusalsLeft(s, now, username, end)
    decreases |run|
  {
    if run == [] {
    } else {
      var (s', outcome) := LoginStep(s, run[0]);
      var rest := Outcomes(s', run[1..]);
      assert Outcomes(s, run)[1..] == rest;
      if end <= run[0].at {
        NothingAfter(run, Outcomes(s, run), username, from, end);
      } else {
        assert Outcomes(s, run)[0] == outcome && run[0].username == username ==> !outcome.LoggedIn?;
        RefusalsLeftDrop(s, now, run[0], username, end);
        forall i | 0 <= i < |run[1..]| && run[1..][i].username == username && Within(run[1..][i], from, end)
          ensures !rest[i].LoggedIn?
        {
          assert rest[i] == Outcomes(s, run)[i + 1] && run[1..][i] == run[i + 1];
        }
        RefusalsBounded(s', run[0].at, run[1..], username, from, end);
      }
    }
  }

  lemma {:induction false} NothingAfter(run: seq<Attempt>, outcomes: seq<Outcome>, username: string, from: int, end: int)
    requires |run| == |outcomes| && forall i :: 0 <= i < |run| ==> end <= run[i].at
    ensures FailedChecks(run, outcomes, username, from, end) == 0
  {
    if run != [] {
      NothingAfter(run[1..], outcomes[1..], username, from, end);
    }
  }

  /**
   Whatever the mix of users, addresses and passwords: in any half-open 900 seconds in which
   `username` does not log in, at most 8 of its passwords are checked and refused.
   */
  lemma {:induction false} LockoutSlidingWindow(s: Store, now: int, run: seq<Attempt>, username: string, from: int)
    requires LockoutInvariant(s, now, username) && InOrder(run, now)
    requires NoLogin(run, Outcomes(s, run), username, from, from + LOCKOUT_WINDOW)
    ensures FailedChecks(run, Outcomes(s, run), username, from, from + LOCKOUT_WINDOW)
         <= 2 * FAIL_LOCKOUT_THRESHOLD - 2
    decreases |run|
  {
    if run == [] {
    } else if from <= run[0].at {
      assert LockoutInvariant(s, run[0].at, username);
      if run[0].at < from + LOCKOUT_WINDOW {
        RefusalsBounded(s, run[0].at, run, username, from, from + LOCKOUT_WINDOW);
      } else {
        NothingAfter(run, Outcomes(s, run), username, from, from + LOCKOUT_WINDOW);
      }
    } else {
      var (s', outcome) := LoginStep(s, run[0]);
      var rest := Outcomes(s', run[1..]);
      assert Outcomes(s, run)[1..] == rest;
      LockoutInvariantKept(s, now, run[0], username);
      forall i | 0 <= i < |run[1..]| && run[1..][i].username == username
                 && Within(run[1..][i], from, from + LOCKOUT_WINDOW)
        ensures !rest[i].LoggedIn?
      {
        assert rest[i] == Outcomes(s, run)[i + 1] && run[1..][i] == run[i + 1];
      }
      LockoutSlidingWindow(s', run[0].at, run[1..], username, from);
    }
  }

  // ---------------------------------------------------------------------------
  // A lock really locks
  // ---------------------------------------------------------------------------

  predicate LockedUntil(s: Store, now: int, username: string, until: int) {
    Live(s, now, LockKey(username)) && s[LockKey(username)].expireAt == Some(until)
  }

  /** The fifth refusal arms a lock for the full 900 seconds. */
  lemma FifthRefusalLocks(s: Store, a: Attempt)
    requires LoginStep(s, a).1.BadCredentials? && LoginStep(s, a).1.attempt >= FAIL_LOCKOUT_THRESHOLD
    ensures LockedUntil(LoginStep(s, a).0, a.at, a.username, a.at + LOCKOUT_WINDOW)
  {
    assert RateKey(a.ip) != FailKey(a.username);
  }

  /** Until a lock lapses no password of that user is checked, not even a correct one. */
  lemma {:induction false} LockHolds(s: Store, now: int, run: seq<Attempt>, username: string, until: int)
    requires LockedUntil(s, now, username, until) && InOrder(run, now)
    ensures forall i :: 0 <= i < |run| && run[i].username == username && run[i].at < until
              ==> Outcomes(s, run)[i] in {IpLimited, AccountLocked}
    decreases |run|
  {
    if run == [] || until <= run[0].at {
    } else {
      var (s', outcome) := LoginStep(s, run[0]);
      assert LockedUntil(s', run[0].at, username, until);
      LockHolds(s', run[0].at, run[1..], username, until);
      forall i | 0 <= i < |run| && run[i].username == username && run[i].at < until
        ensures Outcomes(s, run)[i] in {IpLimited, AccountLocked}
      {
        if i > 0 {
          assert run[1..][i - 1] == run[i] && Outcomes(s, run)[i] == Outcomes(s', run[1..])[i - 1];
        }
      }
    }
  }

  // ---------------------------------------------------------------------------
  // Address rate: at most 39 attempts get past the check in any 60 seconds
  // ---------------------------------------------------------------------------

  const RATE_WINDOW: int := IP_RATE_TTL * SECOND

  predicate RateInvariant(s: Store, now: int, ip: string) {
    Live(s, now, RateKey(ip)) ==>
      && s[RateKey(ip)].count >= 1
      && s[RateKey(ip)].expireAt.Some?
      && s[RateKey(ip)].expireAt.value <= now + RATE_WINDOW
  }

  lemma RateInvariantKept(s: Store, now: int, a: Attempt, ip: string)
    requires RateInvariant(s, now, ip) && now <= a.at
    ensures RateInvariant(LoginStep(s, a).0, a.at, ip)
  {
    assert RateInvariant(s, a.at, ip);
  }

  /** The most attempts from `ip` that can still get past the check from `now` until `end`. */
  function AdmissionsLeft(s: Store, now: int, ip: string, end: int): nat
    requires RateInvariant(s, now, ip)
  {
    if end <= now then 0
    else if Live(s, now, RateKey(ip)) then
      (if s[RateKey(ip)].count < IP_RATE_LIMIT then IP_RATE_LIMIT - s[RateKey(ip)].count else 0)
      + if end <= s[RateKey(ip)].expireAt.value then 0 else IP_RATE_LIMIT
    else IP_RATE_LIMIT
  }

  lemma AdmissionsLeftDrop(s: Store, now: int, a: Attempt, ip: string, end: int)
    requires RateInvariant(s, now, ip) && now <= a.at < end <= now + RATE_WINDOW
    ensures RateInvariant(LoginStep(s, a).0, a.at, ip)
    ensures AdmissionsLeft(LoginStep(s, a).0, a.at, ip, end)
         + (if a.ip == ip && !LoginStep(s, a).1.IpLimited? then 1 else 0)
         <= AdmissionsLeft(s, now, ip, end)
  {
    RateInvariantKept(s, now, a, ip);
  }

  lemma {:induction false} AdmissionsBounded(s: Store, now: int, run: seq<Attempt>, ip: string, from: int, end: int)
    requires RateInvariant(s, now, ip) && InOrder(run, now)
    requires from <= now && end <= now + RATE_WINDOW
    ensures Admitted(run, Outcomes(s, run), ip, from, end) <= AdmissionsLeft(s, now, ip, end)
    decreases |run|
  {
    if run == [] {
    } else {
      assert Outcomes(s, run)[1..] == Outcomes(LoginStep(s, run[0]).0, run[1..]);
      if end <= run[0].at {
        NobodyAfter(run, Outcomes(s, run), ip, from, end);
      } else {
        AdmissionsLeftDrop(s, now, run[0], ip, end);
        AdmissionsBounded(LoginStep(s, run[0]).0, run[0].at, run[1..], ip, from, end);
      }
    }
  }

  lemma {:induction false} NobodyAfter(run: seq<Attempt>, outcomes: seq<Outcome>, ip: string, from: int, end: int)
    requires |run| == |outcomes| && forall i :: 0 <= i < |run| ==> end <= run[i].at
    ensures Admitted(run, outcomes, ip, from, end) == 0
  {
    if run != [] {
      NobodyAfter(run[1..], outcomes[1..], ip, from, end);
    }
  }

  /** Whatever the mix of accepted, refused and rejected attempts. */
  lemma {:induction false} RateSlidingWindow(s: Store, now: int, run: seq<Attempt>, ip: string, from: int)
    requires RateInvariant(s, now, ip) && InOrder(run, now)
    ensures Admitted(run, Outcomes(s, run), ip, from, from + RATE_WINDOW) <= 2 * IP_RATE_LIMIT - 1
    decreases |run|
  {
    if run == [] {
    } else if from <= run[0].at {
      assert RateInvariant(s, run[0].at, ip);
      if run[0].at < from + RATE_WINDOW {
        AdmissionsBounded(s, run[0].at, run, ip, from, from + RATE_WINDOW);
      } else {
        NobodyAfter(run, Outcomes(s, run), ip, from, from + RATE_WINDOW);
      }
    } else {
      assert Outcomes(s, run)[1..] == Outcomes(LoginStep(s, run[0]).0, run[1..]);
      RateInvariantKept(s, now, run[0], ip);
      RateSlidingWindow(LoginStep(s, run[0]).0, run[0].at, run[1..], ip, from);
    }
  }

  // ---------------------------------------------------------------------------
  // Neither bound can be improved
  // ---------------------------------------------------------------------------

  /** `count` copies of an attempt at one instant, followed by `rest`. */
  function Burst(a: Attempt, count: nat, rest: seq<Attempt>): (run: seq<Attempt>)
    ensures |run| == count + |rest|
    ensures forall i :: 0 <= i < |run| ==> run[i] == if i < count then a else rest[i - count]
  {
    if count == 0 then rest else [a] + Burst(a, count - 1, rest)
  }

  function AfterBurst(s: Store, a: Attempt, count: nat): Store
    decreases count
  {
    if count == 0 then s else AfterBurst(LoginStep(s, a).0, a, count - 1)
  }

  /** The first attempt of a run, split off. */
  lemma HeadCounts(s: Store, a: Attempt, rest: seq<Attempt>, from: int, to: int)
    ensures Admitted([a] + rest, Outcomes(s, [a] + rest), a.ip, from, to)
         == (if !LoginStep(s, a).1.IpLimited? && Within(a, from, to) then 1 else 0)
          + Admitted(rest, Outcomes(LoginStep(s, a).0, rest), a.ip, from, to)
    ensures FailedChecks([a] + rest, Outcomes(s, [a] + rest), a.username, from, to)
         == (if LoginStep(s, a).1.BadCredentials? && Within(a, from, to) then 1 else 0)
          + FailedChecks(rest, Outcomes(LoginStep(s, a).0, rest), a.username, from, to)
  {
    assert ([a] + rest)[1..] == rest;
    assert Outcomes(s, [a] + rest)[1..] == Outcomes(LoginStep(s, a).0, rest);
  }

  /** What one more attempt does to an open window that is not full. */
  lemma RateStep(s: Store, a: Attempt)
    requires 0 < CountOf(s, a.at, RateKey(a.ip)) < IP_RATE_LIMIT
    ensures !LoginStep(s, a).1.IpLimited?
    ensures CountOf(LoginStep(s, a).0, a.at, RateKey(a.ip)) == CountOf(s, a.at, RateKey(a.ip)) + 1
    ensures var s' := LoginStep(s, a).0;
      RateKey(a.ip) in s' && s'[RateKey(a.ip)].expireAt == s[RateKey(a.ip)].expireAt
  {
  }

  /** A burst that stays within the address limit is admitted whole, in the window it finds open. */
  lemma {:induction false} RateBurst(s: Store, a: Attempt, count: nat, rest: seq<Attempt>, from: int, to: int)
    requires 0 < CountOf(s, a.at, RateKey(a.ip)) <= IP_RATE_LIMIT - count && Within(a, from, to)
    ensures Admitted(Burst(a, count, rest), Outcomes(s, Burst(a, count, rest)), a.ip, from, to)
         == count + Admitted(rest, Outcomes(AfterBurst(s, a, count), rest), a.ip, from, to)
    ensures var s' := AfterBurst(s, a, count);
      RateKey(a.ip) in s' && s'[RateKey(a.ip)].expireAt == s[RateKey(a.ip)].expireAt
    decreases count
  {
    if count > 0 {
      RateStep(s, a);
      HeadCounts(s, a, Burst(a, count - 1, rest), from, to);
      RateBurst(LoginStep(s, a).0, a, count - 1, rest, from, to);
    }
  }

  /** An attempt that finds no window opens one; with the rest of its burst it fills it. */
  lemma FullRateWindow(s: Store, a: Attempt, count: nat, rest: seq<Attempt>, from: int, to: int)
    requires !Live(s, a.at, RateKey(a.ip)) && Within(a, from, to) && count < IP_RATE_LIMIT
    ensures Admitted([a] + Burst(a, count, rest), Outcomes(s, [a] + Burst(a, count, rest)), a.ip, from, to)
         == count + 1 + Admitted(rest, Outcomes(AfterBurst(LoginStep(s, a).0, a, count), rest), a.ip, from, to)
  {
    HeadCounts(s, a, Burst(a, count, rest), from, to);
    RateBurst(LoginStep(s, a).0, a, count, rest, from, to);
  }

  /** One attempt, a burst at a later instant and a second burst later still, in that order. */
  function ThreeStages(a: Attempt, late: int, closing: nat, later: int, filling: nat): (run: seq<Attempt>)
    requires a.at <= late <= later
    ensures InOrder(run, a.at)
    ensures run != [] && run[0] == a
    ensures run[1..] == Burst(a.(at := late), closing, [a.(at := later)] + Burst(a.(at := later), filling, []))
  {
    [a] + Burst(a.(at := late), closing, [a.(at := later)] + Burst(a.(at := later), filling, []))
  }

  /** 19 attempts close a window that one attempt opened, and 20 more fill the next. */
  lemma TwoRateWindows(s: Store, late: Attempt, next: Attempt, from: int, to: int)
    requires RateKey(late.ip) in s && s[RateKey(late.ip)] == Entry(1, Some(next.at))
    requires next.ip == late.ip && late.at < next.at && Within(late, from, to) && Within(next, from, to)
    ensures var run := Burst(late, 19, [next] + Burst(next, 19, []));
      Admitted(run, Outcomes(s, run), late.ip, from, to) == 39
  {
    var second := [next] + Burst(next, 19, []);
    RateBurst(s, late, 19, second, from, to);
    FullRateWindow(AfterBurst(s, late, 19), next, 19, [], from, to);
  }

  /** 39 is reached: one attempt opens a window, 19 close it, and 20 fill the next. */
  lemma RateWindowTight(a: Attempt) returns (run: seq<Attempt>, from: int)
    requires a.at == 0
    ensures InOrder(run, 0)
    ensures Admitted(run, Outcomes(map[], run), a.ip, from, from + RATE_WINDOW) == 2 * IP_RATE_LIMIT - 1
  {
    from := RATE_WINDOW - 1;
    run := ThreeStages(a, from, 19, RATE_WINDOW, 19);
    assert run == [a] + run[1..];
    HeadCounts(map[], a, run[1..], from, from + RATE_WINDOW);
    var s1 := LoginStep(map[], a).0;
    assert s1[RateKey(a.ip)] == Entry(1, Some(RATE_WINDOW));
    TwoRateWindows(s1, a.(at := from), a.(at := RATE_WINDOW), from, from + RATE_WINDOW);
  }

  /** What one more wrong password does, below both limits. */
  lemma RefusalStep(s: Store, a: Attempt)
    requires !Accepts(a.account) && LockKey(a.username) !in s
    requires CountOf(s, a.at, RateKey(a.ip)) < IP_RATE_LIMIT
    ensures LoginStep(s, a).1 == BadCredentials(CountOf(s, a.at, FailKey(a.username)) + 1)
    ensures CountOf(LoginStep(s, a).0, a.at, RateKey(a.ip)) == CountOf(s, a.at, RateKey(a.ip)) + 1
    ensures CountOf(LoginStep(s, a).0, a.at, FailKey(a.username)) == CountOf(s, a.at, FailKey(a.username)) + 1
    ensures CountOf(s, a.at, FailKey(a.username)) > 0 ==>
      LoginStep(s, a).0[FailKey(a.username)].expireAt == s[FailKey(a.username)].expireAt
    ensures CountOf(s, a.at, FailKey(a.username)) + 1 < FAIL_LOCKOUT_THRESHOLD ==>
      LockKey(a.username) !in LoginStep(s, a).0
  {
  }

  /** A burst of wrong passwords below both limits is refused whole, each refusal counted. */
  lemma {:induction false} RefusalBurst(s: Store, a: Attempt, count: nat, rest: seq<Attempt>, from: int, to: int)
    requires !Accepts(a.account) && Within(a, from, to)
    requires CountOf(s, a.at, RateKey(a.ip)) + count <= IP_RATE_LIMIT
    requires 0 < CountOf(s, a.at, FailKey(a.username)) <= FAIL_LOCKOUT_THRESHOLD - count
    requires count > 0 ==> LockKey(a.username) !in s
    ensures FailedChecks(Burst(a, count, rest), Outcomes(s, Burst(a, count, rest)), a.username, from, to)
         == count + FailedChecks(rest, Outcomes(AfterBurst(s, a, count), rest), a.username, from, to)
    decreases count
  {
    if count > 0 {
      RefusalStep(s, a);
      HeadCounts(s, a, Burst(a, count - 1, rest), from, to);
      RefusalBurst(LoginStep(s, a).0, a, count - 1, rest, from, to);
    }
  }

  /** The state such a burst leaves. */
  lemma {:induction false} AfterRefusals(s: Store, a: Attempt, count: nat)
    requires !Accepts(a.account) && LockKey(a.username) !in s
    requires CountOf(s, a.at, RateKey(a.ip)) + count <= IP_RATE_LIMIT
    requires 0 < CountOf(s, a.at, FailKey(a.username)) < FAIL_LOCKOUT_THRESHOLD - count
    ensures var s' := AfterBurst(s, a, count);
      && CountOf(s', a.at, RateKey(a.ip)) == CountOf(s, a.at, RateKey(a.ip)) + count
      && CountOf(s', a.at, FailKey(a.username)) == CountOf(s, a.at, FailKey(a.username)) + count
      && s'[FailKey(a.username)].expireAt == s[FailKey(a.username)].expireAt
      && LockKey(a.username) !in s'
    decreases count
  {
    if count > 0 {
      RefusalStep(s, a);
      AfterRefusals(LoginStep(s, a).0, a, count - 1);
    }
  }

  /** 8 is reached: one early refusal, three at the end of its counter, five in the next counter. */
  lemma LockoutWindowTight(a: Attempt) returns (run: seq<Attempt>, from: int)
    requires a.at == 0 && !Accepts(a.account)
    ensures InOrder(run, 0)
    ensures NoLogin(run, Outcomes(map[], run), a.username, from, from + LOCKOUT_WINDOW)
    ensures FailedChecks(run, Outcomes(map[], run), a.username, from, from + LOCKOUT_WINDOW)
         == 2 * FAIL_LOCKOUT_THRESHOLD - 2
  {
    from := LOCKOUT_WINDOW - 1;
    var to := from + LOCKOUT_WINDOW;
    run := ThreeStages(a, from, 3, LOCKOUT_WINDOW, 4);
    var late, next := a.(at := from), a.(at := LOCKOUT_WINDOW);
    var filling := Burst(next, 4, []);
    var s1 := LoginStep(map[], a).0;
    var s2 := AfterBurst(s1, late, 3);
    assert FailedChecks(run, Outcomes(map[], run), a.username, from, to)
        == FailedChecks(run[1..], Outcomes(s1, run[1..]), a.username, from, to) by {
      assert run == [a] + run[1..];
      HeadCounts(map[], a, run[1..], from, to);
    }
    assert s1[FailKey(a.username)] == Entry(1, Some(LOCKOUT_WINDOW)) && LockKey(a.username) !in s1;
    assert !Live(s1, from, RateKey(a.ip));
    RefusalBurst(s1, late, 3, [next] + filling, from, to);
    AfterRefusals(s1, late, 3);
    FullLockoutWindow(s2, next, from, to);
    NobodyLogsIn(map[], run);
  }

  /** Five wrong passwords against no counter and no lock are all refused. */
  lemma FullLockoutWindow(s: Store, a: Attempt, from: int, to: int)
    requires !Accepts(a.account) && Within(a, from, to) && LockKey(a.username) !in s
    requires CountOf(s, a.at, RateKey(a.ip)) <= 10 && CountOf(s, a.at, FailKey(a.username)) == 0
    ensures FailedChecks([a] + Burst(a, 4, []), Outcomes(s, [a] + Burst(a, 4, [])), a.username, from, to) == 5
  {
    RefusalStep(s, a);
    HeadCounts(s, a, Burst(a, 4, []), from, to);
    RefusalBurst(LoginStep(s, a).0, a, 4, [], from, to);
  }

  lemma {:induction false} NobodyLogsIn(s: Store, run: seq<Attempt>)
    requires forall a :: a in run ==> !Accepts(a.account)
    ensures forall i :: 0 <= i < |run| ==> !Outcomes(s, run)[i].LoggedIn?
    decreases |run|
  {
    if run != [] {
      var s' := LoginStep(s, run[0]).0;
      NobodyLogsIn(s', run[1..]);
      assert forall i :: 0 < i < |run| ==> Outcomes(s, run)[i] == Outcomes(s', run[1..])[i - 1];
    }
  }
}
