/**
 Concurrent logins of one user, interleaved one Redis command at a time. A login enters the
 machine when it reaches the lockout check; its address check has already passed.
 */
module LoginInterleaving {
  import opened Wrappers
  import opened Redis
  import opened LoginThrottle

  /** The command a login in flight sends next. */
  datatype Pc = Idle | AtExists | AtIncr | AtExpire | AtSetEx | AtDelete

  /** At most `|slots|` logins of the user are in flight at once. */
  datatype System = System(store: Store, now: int, slots: seq<Pc>)

  datatype Move =
    | Tick(to: int)
    | Enter(slot: nat)
    | Exists(slot: nat, accepted: bool)
    | Incr(slot: nat)
    | Expire(slot: nat)
    | SetEx(slot: nat)
    | Delete(slot: nat)

  predicate At(x: System, slot: nat, pc: Pc) {
    slot < |x.slots| && x.slots[slot] == pc
  }

  predicate Enabled(x: System, m: Move) {
    match m
    case Tick(to) => x.now <= to
    case Enter(slot) => At(x, slot, Idle)
    case Exists(slot, _) => At(x, slot, AtExists)
    case Incr(slot) => At(x, slot, AtIncr)
    case Expire(slot) => At(x, slot, AtExpire)
    case SetEx(slot) => At(x, slot, AtSetEx)
    case Delete(slot) => At(x, slot, AtDelete)
  }

  /** `accepted` is the outcome of the password check that follows an absent lock. */
  function Next(x: System, m: Move, username: string): System
    requires Enabled(x, m)
  {
    var fail, lock := FailKey(username), LockKey(username);
    match m
    case Tick(to) => x.(now := to)
    case Enter(slot) => x.(slots := x.slots[slot := AtExists])
    case Exists(slot, accepted) =>
      x.(slots := x.slots[slot := if Live(x.store, x.now, lock) then Idle else if accepted then AtDelete else AtIncr])
    case Incr(slot) =>
      var store := AfterIncr(x.store, x.now, fail);
      var count := store[fail].count;
      x.(store := store,
         slots := x.slots[slot :=
           if count == 1 then AtExpire else if count >= FAIL_LOCKOUT_THRESHOLD then AtSetEx else Idle])
    case Expire(slot) =>
      x.(store := AfterExpire(x.store, x.now, fail, FAIL_LOCKOUT_TTL), slots := x.slots[slot := Idle])
    case SetEx(slot) =>
      x.(store := AfterSetEx(x.store, x.now, lock, FAIL_LOCKOUT_TTL), slots := x.slots[slot := Idle])
    case Delete(slot) =>
      x.(store := x.store - {fail, lock}, slots := x.slots[slot := Idle])
  }

  predicate ValidRun(x: System, run: seq<Move>, username: string)
    decreases |run|
  {
    run == [] || (Enabled(x, run[0]) && ValidRun(Next(x, run[0], username), run[1..], username))
  }

  function After(x: System, run: seq<Move>, username: string): System
    requires ValidRun(x, run, username)
    decreases |run|
  {
    if run == [] then x else After(Next(x, run[0], username), run[1..], username)
  }

  function Start(inFlight: nat, now: int): System {
    System(map[], now, seq(inFlight, _ => Idle))
  }

  // ---------------------------------------------------------------------------
  // A login that nothing interrupts is a login
  // ---------------------------------------------------------------------------

  lemma RunsCompose(x: System, first: seq<Move>, second: seq<Move>, username: string)
    requires ValidRun(x, first, username) && ValidRun(After(x, first, username), second, username)
    ensures ValidRun(x, first + second, username)
    ensures After(x, first + second, username) == After(After(x, first, username), second, username)
    decreases |first|
  {
    if first == [] {
      assert first + second == second;
    } else {
      assert (first + second)[1..] == first[1..] + second;
      RunsCompose(Next(x, first[0], username), first[1..], second, username);
    }
  }

  lemma OneMove(x: System, m: Move, username: string)
    requires Enabled(x, m)
    ensures ValidRun(x, [m], username) && After(x, [m], username) == Next(x, m, username)
  {
    assert [m][1..] == [];
    assert After(Next(x, m, username), [], username) == Next(x, m, username);
  }

  lemma TwoMoves(x: System, m: Move, n: Move, username: string)
    requires Enabled(x, m) && Enabled(Next(x, m, username), n)
    ensures ValidRun(x, [m, n], username) && After(x, [m, n], username) == Next(Next(x, m, username), n, username)
  {
    OneMove(x, m, username);
    OneMove(Next(x, m, username), n, username);
    RunsCompose(x, [m], [n], username);
    assert [m] + [n] == [m, n];
  }

  /** The moves of a login whose password was refused: count, and then expire or lock if it falls due. */
  lemma RefusalMoves(x: System, slot: nat, username: string) returns (run: seq<Move>)
    requires At(x, slot, AtIncr)
    ensures ValidRun(x, run, username)
    ensures After(x, run, username) == System(AfterFailure(x.store, x.now, username), x.now, x.slots[slot := Idle])
  {
    var counted := Next(x, Incr(slot), username);
    match counted.slots[slot]
    case AtExpire =>
      run := [Incr(slot), Expire(slot)];
      TwoMoves(x, Incr(slot), Expire(slot), username);
    case AtSetEx =>
      run := [Incr(slot), SetEx(slot)];
      TwoMoves(x, Incr(slot), SetEx(slot), username);
    case _ =>
      run := [Incr(slot)];
      OneMove(x, Incr(slot), username);
  }

  /** Sent without interruption, the commands of one slot do to the store what the whole login does after its address check. */
  lemma UninterruptedIsLogin(s: Store, a: Attempt, x: System, slot: nat) returns (run: seq<Move>)
    requires At(x, slot, Idle) && x.now == a.at && x.store == AfterIpRate(s, a.at, a.ip) && !LoginStep(s, a).1.IpLimited?
    ensures ValidRun(x, run, a.username)
    ensures After(x, run, a.username) == System(LoginStep(s, a).0, x.now, x.slots)
  {
    var accepted := a.account.Some? && a.account.value.enabled && a.account.value.passwordMatches;
    var first := [Enter(slot), Exists(slot, accepted)];
    TwoMoves(x, Enter(slot), Exists(slot, accepted), a.username);
    var checked := After(x, first, a.username);
    var second: seq<Move> := [];
    if checked.slots[slot] == AtDelete {
      second := [Delete(slot)];
      OneMove(checked, Delete(slot), a.username);
    } else if checked.slots[slot] == AtIncr {
      second := RefusalMoves(checked, slot, a.username);
    }
    RunsCompose(x, first, second, a.username);
    run := first + second;
  }

  // ---------------------------------------------------------------------------
  // Logins that are about to send a command
  // ---------------------------------------------------------------------------

  /** How many logins in flight are about to send the command `pc`. */
  function Waiting(slots: seq<Pc>, pc: Pc): nat {
    if slots == [] then 0 else (if slots[0] == pc then 1 else 0) + Waiting(slots[1..], pc)
  }

  lemma {:induction false} WaitingAfterUpdate(slots: seq<Pc>, i: nat, to: Pc, pc: Pc)
    requires i < |slots|
    ensures Waiting(slots[i := to], pc)
         == Waiting(slots, pc) - (if slots[i] == pc then 1 else 0) + (if to == pc then 1 else 0)
  {
    if i > 0 {
      assert slots[i := to][1..] == slots[1..][i - 1 := to];
      WaitingAfterUpdate(slots[1..], i - 1, to, pc);
    } else {
      assert slots[i := to][1..] == slots[1..];
    }
  }

  lemma {:induction false} WaitingFits(slots: seq<Pc>, a: Pc, b: Pc)
    requires a != b
    ensures Waiting(slots, a) + Waiting(slots, b) <= |slots|
  {
    if slots != [] {
      WaitingFits(slots[1..], a, b);
    }
  }

  lemma {:induction false} NobodyWaiting(slots: seq<Pc>, pc: Pc)
    requires forall i :: 0 <= i < |slots| ==> slots[i] != pc
    ensures Waiting(slots, pc) == 0
  {
    if slots != [] {
      NobodyWaiting(slots[1..], pc);
    }
  }

  // ---------------------------------------------------------------------------
  // The counter until the first lock it arms lapses
  // ---------------------------------------------------------------------------

  function Failures(x: System, username: string): nat {
    CountOf(x.store, x.now, FailKey(username))
  }

  /**
   A run watched for one counter, the one that is live or was last: which slots are about to set a lock
   for one of its increments, and whether it has had a lock set since it was created.
   */
  datatype Watch = Watch(x: System, armers: set<nat>, armed: bool)

  function Watched(w: Watch, m: Move, username: string): Watch
    requires Enabled(w.x, m)
  {
    var x := Next(w.x, m, username);
    match m
    case Incr(slot) =>
      if !Live(w.x.store, w.x.now, FailKey(username)) then Watch(x, {}, false)
      else Watch(x, if x.slots[slot] == AtSetEx then w.armers + {slot} else w.armers, w.armed)
    case SetEx(slot) => Watch(x, w.armers - {slot}, w.armed || slot in w.armers)
    case _ => Watch(x, w.armers, w.armed)
  }

  function WatchedAfter(w: Watch, run: seq<Move>, username: string): Watch
    requires ValidRun(w.x, run, username)
    decreases |run|
  {
    if run == [] then w else WatchedAfter(Watched(w, run[0], username), run[1..], username)
  }

  /** Nobody new passes the check; only those already past it can still count. */
  predicate DuringLock(x: System, username: string) {
    && Live(x.store, x.now, LockKey(username))
    && Failures(x, username) + Waiting(x.slots, AtIncr) <= FAIL_LOCKOUT_THRESHOLD - 1 + |x.slots|
  }

  /** Before its first lock every increment of the counter from the fifth on still has its lock to set. */
  predicate Bounded(w: Watch, username: string) {
    && (forall slot :: slot in w.armers ==> At(w.x, slot, AtSetEx))
    && (Live(w.x.store, w.x.now, FailKey(username)) ==>
          if w.armed then DuringLock(w.x, username) else Failures(w.x, username) <= FAIL_LOCKOUT_THRESHOLD - 1 + |w.armers|)
  }

  /** The clock takes a lock away that the counter armed, and leaves the counter. */
  predicate OutlivesItsLock(w: Watch, m: Move, username: string) {
    && m.Tick? && w.armed
    && Live(w.x.store, w.x.now, LockKey(username)) && !Live(w.x.store, m.to, LockKey(username))
    && Live(w.x.store, m.to, FailKey(username))
  }

  lemma {:induction false} ArmersWait(slots: seq<Pc>, armers: set<nat>)
    requires forall slot :: slot in armers ==> slot < |slots| && slots[slot] == AtSetEx
    ensures |armers| <= Waiting(slots, AtSetEx)
    decreases |slots|
  {
    if slots == [] {
      assert armers == {};
    } else {
      var n := |slots| - 1;
      var others := armers - {n};
      WaitingLast(slots, AtSetEx);
      ArmersWait(slots[..n], others);
      assert armers == others + if n in armers then {n} else {};
    }
  }

  lemma {:induction false} WaitingLast(slots: seq<Pc>, pc: Pc)
    requires slots != []
    ensures Waiting(slots, pc) == Waiting(slots[..|slots| - 1], pc) + if slots[|slots| - 1] == pc then 1 else 0
    decreases |slots|
  {
    if |slots| > 1 {
      WaitingLast(slots[1..], pc);
      assert slots[1..][..|slots| - 2] == slots[..|slots| - 1][1..];
    }
  }

  lemma BoundedKept(w: Watch, m: Move, username: string)
    requires Bounded(w, username) && Enabled(w.x, m) && !m.Delete?
    requires !OutlivesItsLock(w, m, username)
    ensures Bounded(Watched(w, m, username), username)
  {
    if !m.Tick? {
      var to := Next(w.x, m, username).slots[m.slot];
      WaitingAfterUpdate(w.x.slots, m.slot, to, AtIncr);
      ArmersWait(w.x.slots, w.armers);
      WaitingFits(w.x.slots, AtSetEx, AtIncr);
      if m.Incr? {
        assert m.slot !in w.armers;
      }
    }
  }

  predicate NoLoginIn(run: seq<Move>) {
    forall i :: 0 <= i < |run| ==> !run[i].Delete?
  }

  /** No counter outlives a lock that it armed itself; locks of older counters may lapse at any time. */
  predicate LocksLast(w: Watch, run: seq<Move>, username: string)
    requires ValidRun(w.x, run, username)
    decreases |run|
  {
    run == [] || (!OutlivesItsLock(w, run[0], username) && LocksLast(Watched(w, run[0], username), run[1..], username))
  }

  lemma {:induction false} WatchingChangesNothing(w: Watch, run: seq<Move>, username: string)
    requires ValidRun(w.x, run, username)
    ensures WatchedAfter(w, run, username).x == After(w.x, run, username)
    decreases |run|
  {
    if run != [] {
      WatchingChangesNothing(Watched(w, run[0], username), run[1..], username);
    }
  }

  lemma {:induction false} WatchedStaysBounded(w: Watch, run: seq<Move>, username: string)
    requires Bounded(w, username) && ValidRun(w.x, run, username) && NoLoginIn(run) && LocksLast(w, run, username)
    ensures Bounded(WatchedAfter(w, run, username), username)
    ensures |WatchedAfter(w, run, username).x.slots| == |w.x.slots|
    decreases |run|
  {
    if run != [] {
      BoundedKept(w, run[0], username);
      WatchedStaysBounded(Watched(w, run[0], username), run[1..], username);
    }
  }

  /**
   With K logins in flight, from any state without a live counter, whatever locks and lock-setting
   logins older counters left behind, and over every interleaving without a successful login: a
   failure counter never exceeds 4 + K from its creation until the first lock it arms lapses.
   */
  lemma BoundedWhileLocksLast(x: System, run: seq<Move>, username: string)
    requires !Live(x.store, x.now, FailKey(username))
    requires ValidRun(x, run, username) && NoLoginIn(run) && LocksLast(Watch(x, {}, false), run, username)
    ensures Failures(After(x, run, username), username) <= FAIL_LOCKOUT_THRESHOLD - 1 + |x.slots|
  {
    var w := Watch(x, {}, false);
    WatchedStaysBounded(w, run, username);
    WatchingChangesNothing(w, run, username);
    var last := WatchedAfter(w, run, username);
    ArmersWait(last.x.slots, last.armers);
    WaitingFits(last.x.slots, AtSetEx, AtIncr);
  }

  // ---------------------------------------------------------------------------
  // Forever, if no lock is set while an EXPIRE is still to be sent
  // ---------------------------------------------------------------------------

  /** Every increment from the fifth on still has its own lock to set. */
  predicate BeforeLock(x: System, username: string) {
    Failures(x, username) <= FAIL_LOCKOUT_THRESHOLD - 1 + Waiting(x.slots, AtSetEx)
  }

  /** Only the login that created a counter can have left it without an expiry. */
  predicate ExpiryOwed(x: System, username: string) {
    Live(x.store, x.now, FailKey(username)) ==>
      match x.store[FailKey(username)].expireAt
      case None => Waiting(x.slots, AtExpire) > 0
      case Some(at) => at <= x.now + LOCKOUT_WINDOW
  }

  predicate OutlivedByLock(x: System, username: string) {
    && DuringLock(x, username)
    && x.store[LockKey(username)].expireAt.Some?
    && (Live(x.store, x.now, FailKey(username)) ==>
          && Waiting(x.slots, AtExpire) == 0
          && x.store[FailKey(username)].expireAt.Some?
          && x.store[FailKey(username)].expireAt.value <= x.store[LockKey(username)].expireAt.value)
  }

  predicate Disciplined(x: System, username: string) {
    ExpiryOwed(x, username) && (BeforeLock(x, username) || OutlivedByLock(x, username))
  }

  lemma DisciplinedKept(x: System, m: Move, username: string)
    requires Disciplined(x, username) && Enabled(x, m) && !m.Delete?
    requires m.SetEx? ==> Waiting(x.slots, AtExpire) == 0
    ensures Disciplined(Next(x, m, username), username)
  {
    if !m.Tick? {
      var to := Next(x, m, username).slots[m.slot];
      WaitingAfterUpdate(x.slots, m.slot, to, AtSetEx);
      WaitingAfterUpdate(x.slots, m.slot, to, AtIncr);
      WaitingAfterUpdate(x.slots, m.slot, to, AtExpire);
      WaitingFits(x.slots, AtSetEx, AtIncr);
    }
  }

  predicate ExpireBeforeLock(x: System, run: seq<Move>, username: string)
    requires ValidRun(x, run, username)
    decreases |run|
  {
    run == [] ||
    ((run[0].SetEx? ==> Waiting(x.slots, AtExpire) == 0)
      && ExpireBeforeLock(Next(x, run[0], username), run[1..], username))
  }

  lemma {:induction false} DisciplinedRun(x: System, run: seq<Move>, username: string)
    requires Disciplined(x, username) && ValidRun(x, run, username) && NoLoginIn(run)
    requires ExpireBeforeLock(x, run, username)
    ensures Failures(After(x, run, username), username) <= FAIL_LOCKOUT_THRESHOLD - 1 + |x.slots|
    decreases |run|
  {
    WaitingFits(x.slots, AtSetEx, AtIncr);
    if run != [] {
      DisciplinedKept(x, run[0], username);
      DisciplinedRun(Next(x, run[0], username), run[1..], username);
    }
  }

  /** The bound 4 + K, from an empty server, over every interleaving however long. */
  lemma InterleavedBound(inFlight: nat, now: int, run: seq<Move>, username: string)
    requires ValidRun(Start(inFlight, now), run, username) && NoLoginIn(run)
    requires ExpireBeforeLock(Start(inFlight, now), run, username)
    ensures Failures(After(Start(inFlight, now), run, username), username) <= FAIL_LOCKOUT_THRESHOLD - 1 + inFlight
  {
    DisciplinedRun(Start(inFlight, now), run, username);
  }

  /** With one login in flight nothing can come between its EXPIRE and its lock. */
  lemma {:induction false} AloneIsDisciplined(x: System, run: seq<Move>, username: string)
    requires |x.slots| <= 1 && ValidRun(x, run, username)
    ensures ExpireBeforeLock(x, run, username)
    decreases |run|
  {
    if run != [] {
      if run[0].SetEx? {
        assert x.slots[1..] == [];
      }
      AloneIsDisciplined(Next(x, run[0], username), run[1..], username);
    }
  }

  // ---------------------------------------------------------------------------
  // With two or more in flight no bound holds at all
  // ---------------------------------------------------------------------------

  /** One login is stuck before its EXPIRE, another slot is free, and nothing is locked. */
  predicate Stalled(x: System, username: string, count: nat) {
    && |x.slots| >= 2 && x.slots[0] == AtExpire && x.slots[1] == Idle
    && FailKey(username) in x.store && x.store[FailKey(username)] == Entry(count, None)
    && !Live(x.store, x.now, LockKey(username))
  }

  /** A wrong password while stalled adds one, even when it sets a lock that then lapses. */
  lemma StalledStep(x: System, username: string, count: nat) returns (run: seq<Move>)
    requires Stalled(x, username, count) && count > 0
    ensures ValidRun(x, run, username) && NoLoginIn(run)
    ensures Stalled(After(x, run, username), username, count + 1)
  {
    var x1 := Next(x, Enter(1), username);
    var x2 := Next(x1, Exists(1, false), username);
    var x3 := Next(x2, Incr(1), username);
    if count + 1 < FAIL_LOCKOUT_THRESHOLD {
      run := [Enter(1), Exists(1, false), Incr(1)];
      assert run[1..] == [Exists(1, false), Incr(1)] && run[1..][1..] == [Incr(1)];
      OneMove(x2, Incr(1), username);
    } else {
      var x4 := Next(x3, SetEx(1), username);
      var lapse := Tick(x.now + LOCKOUT_WINDOW);
      var x5 := Next(x4, lapse, username);
      run := [Enter(1), Exists(1, false), Incr(1), SetEx(1), lapse];
      assert run[1..] == [Exists(1, false), Incr(1), SetEx(1), lapse];
      assert run[1..][1..] == [Incr(1), SetEx(1), lapse];
      assert run[1..][1..][1..] == [SetEx(1), lapse];
      assert run[1..][1..][1..][1..] == [lapse];
      OneMove(x4, lapse, username);
      assert ValidRun(x3, [SetEx(1), lapse], username) && After(x3, [SetEx(1), lapse], username) == x5;
      assert ValidRun(x2, run[1..][1..], username) && After(x2, run[1..][1..], username) == x5;
    }
    assert ValidRun(x1, run[1..], username);
  }

  /** Two logins in flight, of however many, are enough to push the counter to any number. */
  lemma {:induction false} StalledExpireUnbounded(inFlight: nat, now: int, username: string, count: nat) returns (run: seq<Move>)
    requires inFlight >= 2 && count > 0
    ensures ValidRun(Start(inFlight, now), run, username) && NoLoginIn(run)
    ensures Failures(After(Start(inFlight, now), run, username), username) == count
    ensures Stalled(After(Start(inFlight, now), run, username), username, count)
    decreases count
  {
    var x := Start(inFlight, now);
    if count == 1 {
      run := [Enter(0), Exists(0, false), Incr(0)];
      var x1 := Next(x, Enter(0), username);
      var x2 := Next(x1, Exists(0, false), username);
      var x3 := Next(x2, Incr(0), username);
      assert run[1..] == [Exists(0, false), Incr(0)] && run[1..][1..] == [Incr(0)];
      OneMove(x2, Incr(0), username);
      assert ValidRun(x1, run[1..], username);
    } else {
      var first := StalledExpireUnbounded(inFlight, now, username, count - 1);
      var second := StalledStep(After(x, first, username), username, count - 1);
      RunsCompose(x, first, second, username);
      run := first + second;
    }
  }

  ghost predicate AlwaysBounded(inFlight: nat, now: int, username: string, bound: nat) {
    forall run :: ValidRun(Start(inFlight, now), run, username) && NoLoginIn(run) ==>
      Failures(After(Start(inFlight, now), run, username), username) <= bound
  }

  /** The counter has a bound over every run without a login, and then 4 + K is one, exactly when K is at most 1. */
  lemma BoundExactly(inFlight: nat, now: int, username: string, bound: nat)
    ensures AlwaysBounded(inFlight, now, username, FAIL_LOCKOUT_THRESHOLD - 1 + inFlight) <==> inFlight <= 1
    ensures AlwaysBounded(inFlight, now, username, bound) ==> inFlight <= 1
  {
    if inFlight <= 1 {
      forall run | ValidRun(Start(inFlight, now), run, username) && NoLoginIn(run)
        ensures Failures(After(Start(inFlight, now), run, username), username) <= FAIL_LOCKOUT_THRESHOLD - 1 + inFlight {
        AloneIsDisciplined(Start(inFlight, now), run, username);
        InterleavedBound(inFlight, now, run, username);
      }
    } else {
      var past := StalledExpireUnbounded(inFlight, now, username, bound + 1);
      var run := StalledExpireUnbounded(inFlight, now, username, FAIL_LOCKOUT_THRESHOLD + inFlight);
    }
  }
}
