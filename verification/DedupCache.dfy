/**
 The passive monitor's memory of reported MAC addresses: a sighting is reported unless the address
 was reported less than a minute ago, and old entries are dropped once there are too many.
 Times are in microseconds.
 */
module DedupCache {
  const SECOND := 1_000_000
  const WINDOW := 60 * SECOND
  const LIMIT := 10_000

  type Seen = map<string, int>

  predicate IsRecent(seen: Seen, mac: string, now: int) {
    mac in seen && now - seen[mac] < WINDOW
  }

  function Pruned(seen: Seen, now: int): Seen {
    if |seen| > LIMIT then map mac | mac in seen && seen[mac] > now - 2 * WINDOW :: seen[mac] else seen
  }

  /** The map after a sighting. */
  function AfterSighting(seen: Seen, mac: string, now: int): Seen {
    if IsRecent(seen, mac, now) then seen else Pruned(seen[mac := now], now)
  }

  class PassiveMonitor {
    var seen: Seen

    constructor ()
      ensures seen == map[]
    {
      seen := map[];
    }

    method ShouldReport(mac: string, now: int) returns (report: bool)
      modifies this
      ensures report <==> !IsRecent(old(seen), mac, now)
      ensures seen == AfterSighting(old(seen), mac, now)
    {
      if mac in seen && now - seen[mac] < WINDOW {
        return false;
      }
      seen := seen[mac := now];
      if |seen| > LIMIT {
        var cutoff := now - 2 * WINDOW;
        seen := map k | k in seen && seen[k] > cutoff :: seen[k];
      }
      return true;
    }
  }

  datatype Sighting = Sighting(mac: string, at: int)

  predicate Ordered(run: seq<Sighting>) {
    forall i, j :: 0 <= i < j < |run| ==> run[i].at <= run[j].at
  }

  function SeenAfter(run: seq<Sighting>, n: nat): Seen
    requires n <= |run|
  {
    if n == 0 then map[] else AfterSighting(SeenAfter(run, n - 1), run[n - 1].mac, run[n - 1].at)
  }

  /** Whether sighting `i` of a run is reported. */
  predicate Reported(run: seq<Sighting>, i: nat)
    requires i < |run|
  {
    !IsRecent(SeenAfter(run, i), run[i].mac, run[i].at)
  }

  /** The same monitor without any pruning: the last report of every address. */
  function Unpruned(run: seq<Sighting>, n: nat): Seen
    requires n <= |run|
  {
    if n == 0 then map[] else
    var before := Unpruned(run, n - 1);
    if IsRecent(before, run[n - 1].mac, run[n - 1].at) then before else before[run[n - 1].mac := run[n - 1].at]
  }

  /** What pruning may have dropped by `now`: entries too old to matter from then on. */
  ghost predicate Refines(seen: Seen, full: Seen, now: int) {
    && (forall mac :: mac in seen ==> mac in full && seen[mac] == full[mac])
    && (forall mac :: mac in full && now - full[mac] < WINDOW ==> mac in seen)
  }

  lemma StepRefines(seen: Seen, full: Seen, mac: string, before: int, now: int)
    requires Refines(seen, full, before) && before <= now
    ensures IsRecent(seen, mac, now) <==> IsRecent(full, mac, now)
    ensures Refines(AfterSighting(seen, mac, now), if IsRecent(full, mac, now) then full else full[mac := now], now)
  {
  }

  lemma {:induction false} RunRefines(run: seq<Sighting>, n: nat, now: int)
    requires Ordered(run) && n <= |run| && forall i :: 0 <= i < n ==> run[i].at <= now
    ensures Refines(SeenAfter(run, n), Unpruned(run, n), now)
    decreases n
  {
    if n > 0 {
      var s := run[n - 1];
      RunRefines(run, n - 1, s.at);
      StepRefines(SeenAfter(run, n - 1), Unpruned(run, n - 1), s.mac, s.at, s.at);
    }
  }

  /** Pruning changes no answer: the monitor reports exactly what one that forgets nothing would. */
  lemma PruningIsInvisible(run: seq<Sighting>, i: nat)
    requires Ordered(run) && i < |run|
    ensures Reported(run, i) <==> !IsRecent(Unpruned(run, i), run[i].mac, run[i].at)
  {
    RunRefines(run, i, run[i].at);
  }

  /** The unpruned map holds the last report of each address. */
  lemma {:induction false} LastReport(run: seq<Sighting>, n: nat, mac: string) returns (k: nat)
    requires Ordered(run) && n <= |run|
    ensures mac in Unpruned(run, n) ==>
      k < n && run[k].mac == mac && Reported(run, k) && run[k].at == Unpruned(run, n)[mac]
    ensures forall i :: 0 <= i < n && run[i].mac == mac && Reported(run, i) ==>
      mac in Unpruned(run, n) && run[i].at <= Unpruned(run, n)[mac]
    decreases n
  {
    k := 0;
    if n > 0 {
      k := LastReport(run, n - 1, mac);
      PruningIsInvisible(run, n - 1);
      if run[n - 1].mac == mac && Reported(run, n - 1) {
        k := n - 1;
      }
    }
  }

  /** A sighting is suppressed if and only if its address was reported less than a minute before. */
  lemma SuppressedExactly(run: seq<Sighting>, j: nat)
    requires Ordered(run) && j < |run|
    ensures !Reported(run, j) <==>
      exists i :: 0 <= i < j && run[i].mac == run[j].mac && Reported(run, i) && run[j].at - run[i].at < 60_000_000
  {
    PruningIsInvisible(run, j);
    var k := LastReport(run, j, run[j].mac);
  }

  /** Two reports of one address are at least a minute apart. */
  lemma ReportsApart(run: seq<Sighting>, i: nat, j: nat)
    requires Ordered(run) && i < j < |run| && run[i].mac == run[j].mac && Reported(run, i) && Reported(run, j)
    ensures run[j].at - run[i].at >= 60_000_000
  {
    SuppressedExactly(run, j);
  }

  /** The map outgrows the limit only with addresses reported less than two minutes before the last report. */
  lemma {:induction false} SizeIsBounded(run: seq<Sighting>, n: nat) returns (k: nat)
    requires n <= |run|
    ensures |SeenAfter(run, n)| > 10_000 ==>
      && k < n && Reported(run, k)
      && forall mac :: mac in SeenAfter(run, n) ==> SeenAfter(run, n)[mac] > run[k].at - 120_000_000
    decreases n
  {
    k := 0;
    if n > 0 {
      if Reported(run, n - 1) {
        k := n - 1;
      } else {
        k := SizeIsBounded(run, n - 1);
      }
    }
  }

  /** Nothing is forgotten while there are at most ten thousand addresses. */
  lemma KeepsAllUpToTheLimit(seen: Seen, mac: string, now: int)
    requires |seen| < 10_000
    ensures AfterSighting(seen, mac, now) == if mac in seen && now - seen[mac] < 60_000_000 then seen else seen[mac := now]
  {
    assert seen[mac := now].Keys == seen.Keys + {mac};
    assert |seen.Keys| == |seen|;
    assert |seen[mac := now]| == |seen[mac := now].Keys| <= |seen| + 1;
  }
}
