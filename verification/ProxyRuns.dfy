/**
 Whole runs of the DNS proxy: the invariant of every reachable state, and how long a handed-out address stays bound.
 */
module ProxyRuns {
  import opened Options
  import opened FakeIpPool
  import opened ProxyModel

  datatype Event =
    | Lookup(dest: Address, now: int, ruleAdded: bool)
    | Cleaning(now: int, failing: set<Family>)
      // The process exits, some chains are flushed, and a new process loads what is left.
    | Restart(now: int, flushed: set<Family>, listing: seq<Line>)

  ghost predicate Next(s: State, expiry: int, e: Event, s': State)
    requires s.chains.Keys == s.pools.Keys
  {
    match e
    case Lookup(dest, now, ruleAdded) => LookupNext(s, dest, now, ruleAdded, s')
    case Cleaning(now, failing) => s' == Cleanup(s, now, expiry, failing).0
    case Restart(now, flushed, listing) =>
      var chains := Flush(s.chains, flushed);
      ListingOf(listing, chains) && Load(Fresh(Nets(s), chains), listing, now) == Some(s')
  }

  datatype Run = Run(states: seq<State>, events: seq<Event>)

  /** A run starts from a process with nothing loaded and empty chains. */
  ghost predicate IsRun(run: Run, expiry: int) {
    && |run.states| == |run.events| + 1
    && Starts(run.states[0])
    && forall i :: 0 <= i < |run.events| ==> StepAt(run, expiry, i)
  }

  ghost predicate Starts(s: State) {
    && V4 in s.pools
    && s.chains.Keys == s.pools.Keys
    && s.ipMap == map[]
    && forall f :: f in s.pools ==> s.pools[f] == Empty(s.pools[f].net) && s.chains[f] == []
  }

  ghost predicate StepAt(run: Run, expiry: int, i: int)
    requires 0 <= i < |run.events| && |run.states| == |run.events| + 1
  {
    run.states[i].chains.Keys == run.states[i].pools.Keys &&
      Next(run.states[i], expiry, run.events[i], run.states[i + 1])
  }

  /******* Safety *******/

  /** Flushing some chains and losing the memory is the same as never having had those pairs. */
  ghost function Forget(s: State, flushed: set<Family>): State {
    State(
      map f | f in s.pools :: if f in flushed then Empty(s.pools[f].net) else s.pools[f],
      map a | a in s.ipMap && a.family !in flushed :: s.ipMap[a],
      Flush(s.chains, flushed))
  }

  lemma ForgottenFamily(s: State, flushed: set<Family>, f: Family)
    requires Inv(s) && f in s.pools
    ensures FamilyInv(Forget(s, flushed), f)
  {
    assert FamilyInv(s, f);
    var s' := Forget(s, flushed);
    if f in flushed {
      assert s'.chains[f] == [] && forall a :: a in s'.ipMap ==> a.family != f;
      assert s'.pools[f] == Empty(s.pools[f].net);
    } else {
      UntouchedFamily(s, s', f);
    }
  }

  lemma ForgetKeepsNets(s: State, flushed: set<Family>)
    ensures Nets(Forget(s, flushed)) == Nets(s)
  {
    var s' := Forget(s, flushed);
    forall f | f in s.pools ensures s'.pools[f].net == s.pools[f].net {
    }
  }

  lemma ForgetKeepsInv(s: State, flushed: set<Family>)
    requires Inv(s)
    ensures Inv(Forget(s, flushed)) && Nets(Forget(s, flushed)) == Nets(s)
  {
    ForgetKeepsNets(s, flushed);
    var s' := Forget(s, flushed);
    assert s'.pools.Keys == s.pools.Keys && s'.chains.Keys == s.chains.Keys;
    forall f | f in s'.pools ensures FamilyInv(s', f) {
      ForgottenFamily(s, flushed, f);
    }
  }

  lemma StepKeepsInv(s: State, expiry: int, e: Event, s': State)
    requires Inv(s) && Next(s, expiry, e, s')
    ensures Inv(s')
  {
    match e
    case Lookup(dest, now, ruleAdded) => LookupKeepsInv(s, dest, now, ruleAdded, s');
    case Cleaning(now, failing) => CleanupKeepsInv(s, now, expiry, failing);
    case Restart(now, flushed, listing) =>
      ForgetKeepsInv(s, flushed);
      RestartRecovers(Forget(s, flushed), listing, now);
  }

  /**
   In every reachable state the map and the chains hold the same pairs, one rule a pair, no fake address shared,
   and each pool has in use exactly the fake addresses of its family.
   */
  lemma {:induction false} RunKeepsInv(run: Run, expiry: int, i: nat)
    requires IsRun(run, expiry) && i < |run.states|
    ensures Inv(run.states[i])
  {
    if i == 0 {
      assert forall f :: f in run.states[0].pools ==> FamilyInv(run.states[0], f);
    } else {
      RunKeepsInv(run, expiry, i - 1);
      assert StepAt(run, expiry, i - 1);
      StepKeepsInv(run.states[i - 1], expiry, run.events[i - 1], run.states[i]);
    }
  }

  /** No reachable state can make the next start fail, whatever was flushed on the way down. */
  lemma NoRunBlocksRestart(run: Run, expiry: int, i: nat, flushed: set<Family>, listing: seq<Line>, now: int)
    requires IsRun(run, expiry) && i < |run.states|
    requires ListingOf(listing, Flush(run.states[i].chains, flushed))
    ensures Load(Fresh(Nets(run.states[i]), Flush(run.states[i].chains, flushed)), listing, now).Some?
  {
    RunKeepsInv(run, expiry, i);
    ForgetKeepsInv(run.states[i], flushed);
    RestartRecovers(Forget(run.states[i], flushed), listing, now);
  }

  /******* Leases *******/

  /** What an event may do while a lease stamped at t is to hold. */
  ghost predicate Respects(e: Event, dest: Address, t: int, expiry: int) {
    match e
    case Lookup(d, now, _) => d == dest ==> t <= now
    case Cleaning(now, _) => now <= t + expiry
    case Restart(now, flushed, _) => flushed == {} && t <= now
  }

  ghost predicate Bound(s: State, dest: Address, fake: nat, t: int) {
    dest in s.ipMap && s.ipMap[dest].fake == fake && t <= s.ipMap[dest].lastAccess
  }

  lemma CleanupSpares(s: State, now: int, expiry: int, failing: set<Family>, dest: Address)
    requires Inv(s) && dest in s.ipMap
    requires !IsExpired(s.ipMap[dest], now, expiry)
    ensures
      var s' := Cleanup(s, now, expiry, failing).0;
      dest in s'.ipMap && s'.ipMap[dest] == s.ipMap[dest]
  {
    var s4 := CleanupFamily(s, V4, now, expiry, failing).0;
    forall f ensures !(dest.family == f && dest.value in ExpiredDests(s.ipMap, f, now, expiry)) {
      NotExpired(s.ipMap, f, now, expiry, dest);
    }
    assert dest in s4.ipMap && s4.ipMap[dest] == s.ipMap[dest];
    NotExpired(s4.ipMap, V6, now, expiry, dest);
  }

  lemma NotExpired(ipMap: map<Address, Entry>, f: Family, now: int, expiry: int, dest: Address)
    requires dest in ipMap && !IsExpired(ipMap[dest], now, expiry)
    ensures !(dest.family == f && dest.value in ExpiredDests(ipMap, f, now, expiry))
  {
    assert forall a: Address :: a.family == dest.family && a.value == dest.value ==> a == dest;
  }

  lemma StepKeepsLease(s: State, expiry: int, e: Event, s': State, dest: Address, fake: nat, t: int)
    requires Inv(s) && Next(s, expiry, e, s')
    requires Bound(s, dest, fake, t) && Respects(e, dest, t, expiry)
    ensures Bound(s', dest, fake, t)
  {
    match e
    case Lookup(d, now, ruleAdded) =>
    case Cleaning(now, failing) => CleanupSpares(s, now, expiry, failing, dest);
    case Restart(now, flushed, listing) =>
      ForgetKeepsInv(s, flushed);
      RestartRecovers(Forget(s, flushed), listing, now);
  }

  /**
   The lease: a fake address stamped at time t stays bound to its real address, in the map and in the chain,
   for as long as its stamps do not go backwards, nothing is flushed and no cleanup runs with a clock past t + expiry.
   */
  lemma {:induction false} Lease(run: Run, expiry: int, i: nat, j: nat, dest: Address, fake: nat, t: int)
    requires IsRun(run, expiry) && i <= j < |run.states|
    requires Bound(run.states[i], dest, fake, t)
    requires forall k :: i <= k < j ==> Respects(run.events[k], dest, t, expiry)
    ensures Bound(run.states[j], dest, fake, t)
    ensures dest.family in run.states[j].chains && Rule(fake, dest.value) in run.states[j].chains[dest.family]
    decreases j
  {
    RunKeepsInv(run, expiry, j);
    if i < j {
      Lease(run, expiry, i, j - 1, dest, fake, t);
      LeaseOneMore(run, expiry, j - 1, dest, fake, t);
    }
    BoundHasRule(run.states[j], dest, fake, t);
  }

  lemma LeaseOneMore(run: Run, expiry: int, k: nat, dest: Address, fake: nat, t: int)
    requires IsRun(run, expiry) && k < |run.events|
    requires Bound(run.states[k], dest, fake, t) && Respects(run.events[k], dest, t, expiry)
    ensures Bound(run.states[k + 1], dest, fake, t)
  {
    RunKeepsInv(run, expiry, k);
    assert StepAt(run, expiry, k);
    StepKeepsLease(run.states[k], expiry, run.events[k], run.states[k + 1], dest, fake, t);
  }

  lemma BoundHasRule(s: State, dest: Address, fake: nat, t: int)
    requires Inv(s) && Bound(s, dest, fake, t)
    ensures dest.family in s.chains && Rule(fake, dest.value) in s.chains[dest.family]
  {
    assert FamilyInv(s, dest.family) && Address(dest.family, dest.value) == dest;
    assert Binds(s.ipMap, dest.family, Rule(fake, dest.value));
  }

  /******* Time to live *******/

  /** The resolver's clamp of a record's time to live (section 3.2.1 of RFC 1035). */
  function ClampTtl(ttl: nat, minTtl: nat, maxTtl: nat): (r: nat)
    ensures minTtl <= maxTtl ==> minTtl <= r <= maxTtl
    ensures minTtl <= ttl <= maxTtl ==> r == ttl
  {
    if ttl < minTtl then minTtl else if ttl > maxTtl then maxTtl else ttl
  }

  /**
   At step k the run answered a lookup, the answer reached its client at this time, and by state j its time to live,
   counted from there, has not run out.
   */
  ghost predicate StillLive(run: Run, expiry: int, k: int, j: int, served: int, ttl: int) {
    && IsRun(run, expiry)
    && 0 <= k < j < |run.states|
    && run.events[k].Lookup? && run.events[k].now <= served
    && Answer(run.states[k + 1], run.events[k].dest).Some?
    && (forall i :: k < i < j ==>
          && run.events[i].now <= served + ttl
          && (run.events[i].Lookup? && run.events[i].dest == run.events[k].dest ==>
            run.events[k].now <= run.events[i].now)
          && (run.events[i].Restart? ==> run.events[i].flushed == {} && run.events[k].now <= run.events[i].now))
  }

  ghost predicate RuleStands(run: Run, k: int, j: int)
    requires 0 <= k < j < |run.states| && |run.states| == |run.events| + 1
    requires run.events[k].Lookup? && Answer(run.states[k + 1], run.events[k].dest).Some?
  {
    var dest := run.events[k].dest;
    && dest.family in run.states[j].chains
    && Rule(Answer(run.states[k + 1], dest).value, dest.value) in run.states[j].chains[dest.family]
  }

  /**
   No clamped answer outlives its rule, in any run, whatever time to live the upstream server gave, when answers reach
   their clients within this delay after the lookup read the clock.
   */
  ghost predicate AnswersCovered(expiry: int, minTtl: nat, maxTtl: nat, delay: nat) {
    forall run, k, j, served, ttl: nat ::
      StillLive(run, expiry, k, j, served, ClampTtl(ttl, minTtl, maxTtl)) && served <= run.events[k].now + delay ==>
        RuleStands(run, k, j)
  }

  /** An answered lookup leaves its answer bound with its own time. */
  lemma AnswerBound(s: State, dest: Address, now: int, ruleAdded: bool, s': State)
    requires Inv(s) && LookupNext(s, dest, now, ruleAdded, s') && Answer(s', dest).Some?
    ensures Bound(s', dest, Answer(s', dest).value, now)
  {
    assert dest in s.ipMap ==> dest.family in s.pools;
  }

  lemma LiveAnswerCovered(run: Run, expiry: int, k: int, j: int, served: int, ttl: int)
    requires StillLive(run, expiry, k, j, served, ttl) && served + ttl <= run.events[k].now + expiry
    ensures RuleStands(run, k, j)
  {
    var dest, t := run.events[k].dest, run.events[k].now;
    RunKeepsInv(run, expiry, k);
    assert StepAt(run, expiry, k);
    AnswerBound(run.states[k], dest, t, run.events[k].ruleAdded, run.states[k + 1]);
    Lease(run, expiry, k + 1, j, dest, Answer(run.states[k + 1], dest).value, t);
  }

  const SMALL := Network(0, 4)
  const SEVEN := Address(V4, 7)

  ghost function Idle(): State { State(map[V4 := Empty(SMALL)], map[], map[V4 := []]) }

  ghost function Looked(): State {
    State(map[V4 := Pool(SMALL, {1}, {}, 2)], map[SEVEN := Entry(1, 0)], map[V4 := [Rule(1, 7)]])
  }

  lemma FirstLookup()
    ensures Starts(Idle()) && LookupNext(Idle(), SEVEN, 0, true, Looked())
  {
    var p := Pool(SMALL, {1}, {}, 2);
    assert 1 !in Empty(SMALL).used && 1 in Hosts(SMALL);
    assert Allocates(Empty(SMALL), Some(1), p);
    assert [] + [Rule(1, 7)] == [Rule(1, 7)];
    assert map[V4 := Empty(SMALL)][V4 := p] == map[V4 := p] &&
      map[V4 := []][V4 := [Rule(1, 7)]] == map[V4 := [Rule(1, 7)]];
    assert AfterAllocation(Idle(), SEVEN, 0, true, Some(1), p) == Looked();
  }

  lemma CleanedAfter(expiry: int)
    ensures Rule(1, 7) !in Cleanup(Looked(), expiry + 1, expiry, {}).0.chains[V4]
  {
    var s := Looked();
    assert IsExpired(s.ipMap[SEVEN], expiry + 1, expiry);
    assert SEVEN.value in ExpiredDests(s.ipMap, V4, expiry + 1, expiry);
    WithoutKeepsOthers(s.chains[V4], ExpiredDests(s.ipMap, V4, expiry + 1, expiry));
  }

  ghost function EarlyRun(expiry: int): Run {
    Run([Idle(), Looked(), Cleanup(Looked(), expiry + 1, expiry, {}).0],
      [Lookup(SEVEN, 0, true), Cleaning(expiry + 1, {})])
  }

  lemma EarlyRunIsRun(expiry: int)
    ensures IsRun(EarlyRun(expiry), expiry)
  {
    var run := EarlyRun(expiry);
    FirstLookup();
    assert StepAt(run, expiry, 0);
    assert StepAt(run, expiry, 1);
  }

  /** That run answers at time 0 and cleans up one tick after the expiry time, while the answer still lives. */
  lemma CleanedTooEarly(expiry: int, served: nat, ttl: int)
    requires expiry < served + ttl
    ensures StillLive(EarlyRun(expiry), expiry, 0, 2, served, ttl) && !RuleStands(EarlyRun(expiry), 0, 2)
  {
    EarlyRunIsRun(expiry);
    CleanedAfter(expiry);
    assert Answer(Looked(), SEVEN) == Some(1);
  }

  /**
   Clamped answers are covered in every run exactly when the expiry time is at least the maximum time to live and the
   delay with which an answer reaches its client.
   */
  lemma TtlCoveredIff(expiry: int, minTtl: nat, maxTtl: nat, delay: nat)
    requires minTtl <= maxTtl
    ensures AnswersCovered(expiry, minTtl, maxTtl, delay) <==> maxTtl + delay <= expiry
  {
    if maxTtl + delay <= expiry {
      forall run, k, j, served, ttl: nat |
        StillLive(run, expiry, k, j, served, ClampTtl(ttl, minTtl, maxTtl)) && served <= run.events[k].now + delay
        ensures RuleStands(run, k, j)
      {
        LiveAnswerCovered(run, expiry, k, j, served, ClampTtl(ttl, minTtl, maxTtl));
      }
    } else {
      CleanedTooEarly(expiry, delay, maxTtl);
      assert ClampTtl(maxTtl, minTtl, maxTtl) == maxTtl;
    }
  }
}
