/**
 The DNS proxy as a state machine (setup/root/antizapret/proxy.py, class ProxyResolver).
 One state holds the in-memory map, the two address pools and, as the outside world, the two DNAT chains.
 One event is one critical section of the resolver's lock, or a restart of the process.
 */
module ProxyModel {
  import opened Options
  import opened FakeIpPool

  datatype Family = V4 | V6
  datatype Address = Address(family: Family, value: nat)
  datatype Entry = Entry(fake: nat, lastAccess: int)
  /** "-d fake -j DNAT --to-destination dest", in the chain of one family. */
  datatype Rule = Rule(fake: nat, dest: nat)

  datatype State = State(pools: map<Family, Pool>, ipMap: map<Address, Entry>, chains: map<Family, seq<Rule>>)

  /******* The invariant *******/

  ghost predicate UniqueRules(chain: seq<Rule>) {
    forall i, j :: 0 <= i < j < |chain| ==> chain[i].dest != chain[j].dest && chain[i].fake != chain[j].fake
  }

  ghost function Fakes(chain: seq<Rule>): set<nat> {
    set r | r in chain :: r.fake
  }

  /** The map binds the real address of this rule to its fake address. */
  ghost predicate Binds(ipMap: map<Address, Entry>, f: Family, r: Rule) {
    Address(f, r.dest) in ipMap && ipMap[Address(f, r.dest)].fake == r.fake
  }

  /** The map and one chain hold the same pairs, and the pool's used set is exactly the fake side of them. */
  ghost predicate Mirrors(f: Family, pool: Pool, ipMap: map<Address, Entry>, chain: seq<Rule>) {
    && UniqueRules(chain)
    && (forall r :: r in chain <==> Binds(ipMap, f, r))
    && pool.used == Fakes(chain)
  }

  ghost predicate Inv(s: State) {
    && V4 in s.pools
    && s.chains.Keys == s.pools.Keys
    && (forall a :: a in s.ipMap ==> a.family in s.pools)
    && (forall f :: f in s.pools ==> FamilyInv(s, f))
  }

  ghost predicate FamilyInv(s: State, f: Family)
    requires f in s.pools && f in s.chains
  {
    PoolInv(s.pools[f]) && Mirrors(f, s.pools[f], s.ipMap, s.chains[f])
  }

  /** Two addresses never share a fake address. */
  lemma FakesNotShared(s: State, a: Address, b: Address)
    requires Inv(s)
    requires a in s.ipMap && b in s.ipMap && a.family == b.family
    requires s.ipMap[a].fake == s.ipMap[b].fake
    ensures a == b
  {
    var f, chain := a.family, s.chains[a.family];
    var ra, rb := Rule(s.ipMap[a].fake, a.value), Rule(s.ipMap[b].fake, b.value);
    assert FamilyInv(s, f) && Address(f, ra.dest) == a && Address(f, rb.dest) == b;
    assert Binds(s.ipMap, f, ra) && Binds(s.ipMap, f, rb);
    var i :| 0 <= i < |chain| && chain[i] == ra;
    var j :| 0 <= j < |chain| && chain[j] == rb;
    assert i == j;
  }

  /******* Lookup: get_fake_ip *******/

  ghost function AfterAllocation(s: State, dest: Address, now: int, ruleAdded: bool, r: Option<nat>, p: Pool): State
    requires dest.family in s.pools && dest.family in s.chains
  {
    var f := dest.family;
    match r
    case None => s.(pools := s.pools[f := p])
    case Some(fake) =>
      if ruleAdded then
        State(s.pools[f := p], s.ipMap[dest := Entry(fake, now)], s.chains[f := s.chains[f] + [Rule(fake, dest.value)]])
      else
        s.(pools := s.pools[f := Released(p, fake)])
  }

  ghost predicate LookupNext(s: State, dest: Address, now: int, ruleAdded: bool, s': State)
    requires s.chains.Keys == s.pools.Keys
  {
    if dest.family !in s.pools then s' == s
    else if dest in s.ipMap then s' == s.(ipMap := s.ipMap[dest := Entry(s.ipMap[dest].fake, now)])
    else exists r, p :: Allocates(s.pools[dest.family], r, p) && s' == AfterAllocation(s, dest, now, ruleAdded, r, p)
  }

  /** What a lookup returned, read off the state it left. */
  ghost function Answer(s': State, dest: Address): Option<nat> {
    if dest in s'.ipMap then Some(s'.ipMap[dest].fake) else None
  }

  /** The map may change its stamps, and everything of the other family, without disturbing this family. */
  lemma MirrorsDependsOnPairs(f: Family, pool: Pool, m: map<Address, Entry>, m': map<Address, Entry>, chain: seq<Rule>)
    requires Mirrors(f, pool, m, chain)
    requires forall a: Address :: a.family == f ==> (a in m <==> a in m')
    requires forall a :: a in m && a.family == f ==> m'[a].fake == m[a].fake
    ensures Mirrors(f, pool, m', chain)
  {
  }

  /** A family whose pool and chain are untouched, and whose pairs are the same, keeps its invariant. */
  lemma UntouchedFamily(s: State, s': State, g: Family)
    requires g in s.pools && g in s.chains && FamilyInv(s, g)
    requires g in s'.pools && g in s'.chains && s'.pools[g] == s.pools[g] && s'.chains[g] == s.chains[g]
    requires forall a: Address :: a.family == g ==> (a in s.ipMap <==> a in s'.ipMap)
    requires forall a :: a in s.ipMap && a.family == g ==> s'.ipMap[a].fake == s.ipMap[a].fake
    ensures FamilyInv(s', g)
  {
    MirrorsDependsOnPairs(g, s.pools[g], s.ipMap, s'.ipMap, s.chains[g]);
  }

  lemma LookupKeepsInv(s: State, dest: Address, now: int, ruleAdded: bool, s': State)
    requires Inv(s) && LookupNext(s, dest, now, ruleAdded, s')
    ensures Inv(s')
  {
    if dest.family !in s.pools {
    } else if dest in s.ipMap {
      forall g | g in s.pools ensures FamilyInv(s', g) {
        UntouchedFamily(s, s', g);
      }
    } else {
      var r, p :| Allocates(s.pools[dest.family], r, p) && s' == AfterAllocation(s, dest, now, ruleAdded, r, p);
      MissKeepsInv(s, dest, now, ruleAdded, r, p);
    }
  }

  /** Only one family changed, and its own invariant is kept. */
  lemma OneFamilyChanged(s: State, s': State, f: Family)
    requires Inv(s) && f in s.pools
    requires s'.pools.Keys == s.pools.Keys && s'.chains.Keys == s.chains.Keys
    requires forall g :: g in s.pools && g != f ==> s'.pools[g] == s.pools[g] && s'.chains[g] == s.chains[g]
    requires forall a: Address :: a.family != f ==> (a in s'.ipMap <==> a in s.ipMap)
    requires forall a :: a in s.ipMap && a.family != f ==> s'.ipMap[a] == s.ipMap[a]
    requires FamilyInv(s', f)
    ensures Inv(s')
  {
    forall g | g in s'.pools && g != f ensures FamilyInv(s', g) {
      assert FamilyInv(s, g);
      UntouchedFamily(s, s', g);
    }
  }

  lemma MissKeepsInv(s: State, dest: Address, now: int, ruleAdded: bool, r: Option<nat>, p: Pool)
    requires Inv(s) && dest.family in s.pools && dest !in s.ipMap
    requires Allocates(s.pools[dest.family], r, p)
    ensures Inv(AfterAllocation(s, dest, now, ruleAdded, r, p))
  {
    var f, s' := dest.family, AfterAllocation(s, dest, now, ruleAdded, r, p);
    assert FamilyInv(s, f);
    if r.Some? && ruleAdded {
      AddedRuleMirrors(f, s.pools[f], s.ipMap, s.chains[f], dest, now, r.value, p);
    } else if r.Some? {
      RefusedKeepsFamily(s, dest, now, r.value, p);
    }
    OneFamilyChanged(s, s', f);
  }

  lemma RefusedKeepsFamily(s: State, dest: Address, now: int, fake: nat, p: Pool)
    requires dest.family in s.pools && dest.family in s.chains && FamilyInv(s, dest.family)
    requires Allocates(s.pools[dest.family], Some(fake), p)
    ensures FamilyInv(AfterAllocation(s, dest, now, false, Some(fake), p), dest.family)
  {
    ReleaseUndoesAllocate(s.pools[dest.family], fake, p);
  }

  lemma AddedRuleMirrors(
    f: Family, pool: Pool, m: map<Address, Entry>, chain: seq<Rule>, dest: Address, now: int, fake: nat, p: Pool
  )
    requires Mirrors(f, pool, m, chain)
    requires dest.family == f && dest !in m
    requires fake !in pool.used && p.used == pool.used + {fake}
    ensures Mirrors(f, p, m[dest := Entry(fake, now)], chain + [Rule(fake, dest.value)])
  {
    var rule := Rule(fake, dest.value);
    var chain' := chain + [rule];
    assert forall r :: r in chain ==> r.fake in Fakes(chain);
    forall r | r in chain ensures r.dest != dest.value && r.fake != fake {
      assert Address(f, r.dest) in m;
    }
    assert forall r :: r in chain' <==> r in chain || r == rule;
    assert forall i :: 0 <= i < |chain| ==> chain[i] in chain;
    assert UniqueRules(chain');
    assert rule in chain';
    assert Fakes(chain') == Fakes(chain) + {fake} by {
      forall v | v in Fakes(chain) ensures v in Fakes(chain') {
        var r :| r in chain && r.fake == v;
        assert r in chain';
      }
    }
  }

  /******* Cleanup: cleanup_fake_ips *******/

  ghost predicate IsExpired(e: Entry, now: int, expiry: int) {
    now - e.lastAccess > expiry
  }

  /** The real addresses of one family whose mapping has been idle for longer than the expiry time. */
  ghost function ExpiredDests(ipMap: map<Address, Entry>, f: Family, now: int, expiry: int): set<nat> {
    set a | a in ipMap && a.family == f && IsExpired(ipMap[a], now, expiry) :: a.value
  }

  function Without(chain: seq<Rule>, dests: set<nat>): seq<Rule> {
    if chain == [] then []
    else
      var rest := Without(chain[..|chain| - 1], dests);
      if chain[|chain| - 1].dest in dests then rest else rest + [chain[|chain| - 1]]
  }

  lemma {:induction false} WithoutKeepsOthers(chain: seq<Rule>, dests: set<nat>)
    ensures forall r :: r in Without(chain, dests) <==> r in chain && r.dest !in dests
    ensures UniqueRules(chain) ==> UniqueRules(Without(chain, dests))
  {
    if chain != [] {
      var init, last := chain[..|chain| - 1], chain[|chain| - 1];
      WithoutKeepsOthers(init, dests);
      assert chain == init + [last];
      var rest := Without(init, dests);
      if UniqueRules(chain) {
        assert forall r :: r in init ==> r.dest != last.dest && r.fake != last.fake;
        assert forall k :: 0 <= k < |rest| ==> rest[k] in rest;
      }
    }
  }

  ghost function CleanFamily(s: State, f: Family, now: int, expiry: int): State
    requires f in s.pools && f in s.chains
  {
    var gone := ExpiredDests(s.ipMap, f, now, expiry);
    var fakes := set a | a in s.ipMap && a.family == f && a.value in gone :: s.ipMap[a].fake;
    State(
      s.pools[f := s.pools[f].(used := s.pools[f].used - fakes, released := s.pools[f].released + fakes)],
      map a | a in s.ipMap && !(a.family == f && a.value in gone) :: s.ipMap[a],
      s.chains[f := Without(s.chains[f], gone)])
  }

  /** One family of a cleanup: nothing to do, a batch that is refused as a whole, or a batch that is applied. */
  ghost function CleanupFamily(s: State, f: Family, now: int, expiry: int, failing: set<Family>): (State, bool)
    requires f in s.pools ==> f in s.chains
  {
    if f !in s.pools || ExpiredDests(s.ipMap, f, now, expiry) == {} then (s, false)
    else if f in failing then (s, true)
    else (CleanFamily(s, f, now, expiry), false)
  }

  /** A whole cleanup: the families in order, stopping at the first one whose batch is refused. */
  ghost function Cleanup(s: State, now: int, expiry: int, failing: set<Family>): (State, bool)
    requires s.chains.Keys == s.pools.Keys
  {
    var (s4, raised) := CleanupFamily(s, V4, now, expiry, failing);
    if raised then (s4, true) else CleanupFamily(s4, V6, now, expiry, failing)
  }

  /** The fake addresses that go with an expired mapping are exactly those of the rules that go. */
  lemma CleanedFakes(s: State, f: Family, now: int, expiry: int)
    requires Inv(s) && f in s.pools
    ensures
      var gone := ExpiredDests(s.ipMap, f, now, expiry);
      var fakes := set a | a in s.ipMap && a.family == f && a.value in gone :: s.ipMap[a].fake;
      fakes <= s.pools[f].used && Fakes(Without(s.chains[f], gone)) == s.pools[f].used - fakes
  {
    assert FamilyInv(s, f);
    var chain, gone := s.chains[f], ExpiredDests(s.ipMap, f, now, expiry);
    var chain' := Without(chain, gone);
    var fakes := set a | a in s.ipMap && a.family == f && a.value in gone :: s.ipMap[a].fake;
    WithoutKeepsOthers(chain, gone);
    forall v | v in Fakes(chain') ensures v !in fakes && v in Fakes(chain) {
      var r :| r in chain' && r.fake == v;
      var dest := Address(f, r.dest);
      assert Binds(s.ipMap, f, r);
      forall a | a in s.ipMap && a.family == f && a.value in gone ensures s.ipMap[a].fake != v {
        if s.ipMap[a].fake == v { FakesNotShared(s, a, dest); }
      }
    }
    forall v | v in Fakes(chain) && v !in fakes ensures v in Fakes(chain') {
      var r :| r in chain && r.fake == v;
      assert s.ipMap[Address(f, r.dest)].fake == v;
      assert r in chain';
    }
    forall v | v in fakes ensures v in s.pools[f].used {
      var a :| a in s.ipMap && a.family == f && a.value in gone && s.ipMap[a].fake == v;
      assert Address(f, a.value) == a && Binds(s.ipMap, f, Rule(v, a.value));
      assert Rule(v, a.value) in chain;
    }
  }

  lemma CleanedFamilyInv(s: State, f: Family, now: int, expiry: int)
    requires Inv(s) && f in s.pools
    ensures FamilyInv(CleanFamily(s, f, now, expiry), f)
  {
    var s' := CleanFamily(s, f, now, expiry);
    assert FamilyInv(s, f);
    CleanedFakes(s, f, now, expiry);
    WithoutKeepsOthers(s.chains[f], ExpiredDests(s.ipMap, f, now, expiry));
    forall r ensures r in s'.chains[f] <==> Binds(s'.ipMap, f, r) {
      assert r in s.chains[f] <==> Binds(s.ipMap, f, r);
    }
  }

  lemma CleanedOthers(s: State, f: Family, now: int, expiry: int)
    requires f in s.pools && f in s.chains
    ensures
      var s' := CleanFamily(s, f, now, expiry);
      && s'.pools.Keys == s.pools.Keys && s'.chains.Keys == s.chains.Keys
      && forall a: Address :: a.family != f ==>
        (a in s'.ipMap <==> a in s.ipMap) && (a in s.ipMap ==> s'.ipMap[a] == s.ipMap[a])
  {
  }

  lemma CleanFamilyKeepsInv(s: State, f: Family, now: int, expiry: int)
    requires Inv(s) && f in s.pools
    ensures Inv(CleanFamily(s, f, now, expiry))
  {
    CleanedFamilyInv(s, f, now, expiry);
    CleanedOthers(s, f, now, expiry);
    OneFamilyChanged(s, CleanFamily(s, f, now, expiry), f);
  }

  lemma CleanupFamilyKeepsInv(s: State, f: Family, now: int, expiry: int, failing: set<Family>)
    requires Inv(s)
    ensures Inv(CleanupFamily(s, f, now, expiry, failing).0)
  {
    if f in s.pools {
      CleanFamilyKeepsInv(s, f, now, expiry);
    }
  }

  /** A whole cleanup keeps the invariant, whichever family's batch is refused. */
  lemma CleanupKeepsInv(s: State, now: int, expiry: int, failing: set<Family>)
    requires Inv(s)
    ensures Inv(Cleanup(s, now, expiry, failing).0)
  {
    CleanupFamilyKeepsInv(s, V4, now, expiry, failing);
    CleanupFamilyKeepsInv(CleanupFamily(s, V4, now, expiry, failing).0, V6, now, expiry, failing);
  }

  /**
   A cleanup whose batches all go through leaves exactly the mappings used within the expiry time, of both families, and
   for each address exactly the rule of its mapping.
   */
  lemma CleanupLeaves(s: State, now: int, expiry: int)
    requires Inv(s)
    ensures !Cleanup(s, now, expiry, {}).1
    ensures
      var s' := Cleanup(s, now, expiry, {}).0;
      && (forall a :: a in s'.ipMap <==> a in s.ipMap && now - s.ipMap[a].lastAccess <= expiry)
      && (forall a :: a in s'.ipMap ==> s'.ipMap[a] == s.ipMap[a])
      && RulesFollow(s')
  {
    var s4 := CleanupFamily(s, V4, now, expiry, {}).0;
    CleanupFamilyKeepsInv(s, V4, now, expiry, {});
    CleanupFamilyKeepsInv(s4, V6, now, expiry, {});
    FamilyLeaves(s, V4, now, expiry);
    FamilyLeaves(s4, V6, now, expiry);
    RulesOfInv(CleanupFamily(s4, V6, now, expiry, {}).0);
  }

  /** Each chain holds exactly the rules of its family's mappings. */
  ghost predicate RulesFollow(s: State) {
    forall f, r: Rule :: f in s.chains ==>
      (r in s.chains[f] <==> Address(f, r.dest) in s.ipMap && s.ipMap[Address(f, r.dest)].fake == r.fake)
  }

  lemma RulesOfInv(s: State)
    requires Inv(s)
    ensures RulesFollow(s)
  {
    forall f, r: Rule | f in s.chains
      ensures r in s.chains[f] <==> Address(f, r.dest) in s.ipMap && s.ipMap[Address(f, r.dest)].fake == r.fake
    {
      assert FamilyInv(s, f);
      assert r in s.chains[f] <==> Binds(s.ipMap, f, r);
    }
  }

  lemma FamilyLeaves(s: State, f: Family, now: int, expiry: int)
    requires Inv(s)
    ensures
      var s' := CleanupFamily(s, f, now, expiry, {}).0;
      && s'.chains.Keys == s.chains.Keys
      && (forall a :: a in s'.ipMap <==> a in s.ipMap && (a.family == f ==> now - s.ipMap[a].lastAccess <= expiry))
      && (forall a :: a in s'.ipMap ==> s'.ipMap[a] == s.ipMap[a])
  {
    var gone := ExpiredDests(s.ipMap, f, now, expiry);
    forall a | a in s.ipMap && a.family == f ensures a.value in gone <==> now - s.ipMap[a].lastAccess > expiry {
      if a.value in gone {
        var b :| b in s.ipMap && b.family == f && IsExpired(s.ipMap[b], now, expiry) && b.value == a.value;
        assert b == a;
      }
    }
    if f in s.pools && gone == {} {
      forall a | a in s.ipMap && a.family == f ensures now - s.ipMap[a].lastAccess <= expiry {
        assert a.value !in gone;
      }
    }
  }

  /******* Restart: loading the chains that survived the process *******/

  /** A line of the rule listing: too short to be a rule, or two columns that may or may not be addresses. */
  datatype Line = Short | Pair(fake: Option<Address>, dest: Option<Address>)

  function MappingIp(s: State, dest: Option<Address>, fake: Option<Address>, now: int): Option<State> {
    if dest.None? || fake.None? then None
    else
      var f := dest.value.family;
      if f != fake.value.family then None
      else if f !in s.pools then None
      else if dest.value in s.ipMap then None
      else if !CanClaim(s.pools[f], fake.value.value) then None
      else
        var p := s.pools[f];
        var claimed := p.(used := p.used + {fake.value.value}, released := p.released - {fake.value.value});
        Some(s.(pools := s.pools[f := claimed],
                ipMap := s.ipMap[dest.value := Entry(fake.value.value, now)]))
  }

  predicate CanClaim(p: Pool, address: nat) {
    p.net.base < address < p.net.base + p.net.size - 1 && address !in p.used
  }

  function Load(s: State, lines: seq<Line>, now: int): Option<State> {
    if lines == [] then Some(s)
    else
      match Load(s, lines[..|lines| - 1], now)
      case None => None
      case Some(loaded) =>
        match lines[|lines| - 1]
        case Short => Some(loaded)
        case Pair(fake, dest) => MappingIp(loaded, dest, fake, now)
  }

  /** The state of a process that has not loaded anything yet. */
  ghost function Fresh(nets: map<Family, Network>, chains: map<Family, seq<Rule>>): State {
    State(map f | f in nets :: Empty(nets[f]), map[], chains)
  }

  ghost function Nets(s: State): map<Family, Network> {
    map f | f in s.pools :: s.pools[f].net
  }

  ghost predicate WellPlaced(nets: map<Family, Network>, line: Line) {
    line.Pair? ==>
      && line.dest.Some? && line.fake.Some?
      && line.dest.value.family == line.fake.value.family
      && line.dest.value.family in nets
      && IsHost(nets[line.dest.value.family], line.fake.value.value)
  }

  /** Exactly the listings that loading accepts. */
  ghost predicate Acceptable(nets: map<Family, Network>, lines: seq<Line>) {
    && (forall i :: 0 <= i < |lines| ==> WellPlaced(nets, lines[i]))
    && (forall i, j :: 0 <= i < j < |lines| && lines[i].Pair? && lines[j].Pair? ==>
          lines[i].dest != lines[j].dest && lines[i].fake != lines[j].fake)
  }

  ghost predicate Lists(lines: seq<Line>, dest: Address, fake: nat) {
    Pair(Some(Address(dest.family, fake)), Some(dest)) in lines
  }

  /** What the loaded state holds, said from the listing alone. */
  ghost predicate LoadedFrom(nets: map<Family, Network>, lines: seq<Line>, now: int, s: State) {
    && s.pools.Keys == nets.Keys
    && (forall a, v :: Lists(lines, a, v) ==> a in s.ipMap && s.ipMap[a] == Entry(v, now))
    && (forall a :: a in s.ipMap ==> Lists(lines, a, s.ipMap[a].fake))
    && (forall f :: f in nets ==>
          && s.pools[f].net == nets[f] && s.pools[f].released == {} && s.pools[f].next == 1
          && forall v :: v in s.pools[f].used <==> exists a: Address :: a.family == f && Lists(lines, a, v))
  }

  /** Loading accepts a listing if and only if it is acceptable, and then holds exactly what was listed. */
  lemma {:induction false} LoadExact(
    nets: map<Family, Network>, chains: map<Family, seq<Rule>>, lines: seq<Line>, now: int
  )
    ensures Load(Fresh(nets, chains), lines, now).Some? <==> Acceptable(nets, lines)
    ensures Acceptable(nets, lines) ==>
      && LoadedFrom(nets, lines, now, Load(Fresh(nets, chains), lines, now).value)
      && Load(Fresh(nets, chains), lines, now).value.chains == chains
  {
    if lines != [] {
      var init, last := lines[..|lines| - 1], lines[|lines| - 1];
      assert lines == init + [last];
      LoadExact(nets, chains, init, now);
      AcceptableOneMore(nets, init, last);
      if Acceptable(nets, init) {
        var before := Load(Fresh(nets, chains), init, now).value;
        if last.Pair? {
          MappingIpAccepts(nets, init, last, now, before);
          if MappingIp(before, last.dest, last.fake, now).Some? {
            PairLoaded(nets, init, last, now, before);
          }
        } else {
          ListsOneMore(init, last);
        }
      }
    }
  }

  /** The line's two addresses are both new to the listing. */
  ghost predicate NewPair(lines: seq<Line>, line: Line)
    requires line.Pair?
  {
    forall i :: 0 <= i < |lines| && lines[i].Pair? ==> lines[i].dest != line.dest && lines[i].fake != line.fake
  }

  lemma AcceptableOneMore(nets: map<Family, Network>, init: seq<Line>, last: Line)
    ensures Acceptable(nets, init + [last]) <==>
      Acceptable(nets, init) && WellPlaced(nets, last) && (last.Pair? ==> NewPair(init, last))
  {
    var lines := init + [last];
    assert lines[|init|] == last;
    assert forall i :: 0 <= i < |init| ==> lines[i] == init[i];
  }

  lemma ListsOneMore(init: seq<Line>, last: Line)
    ensures forall a, v :: Lists(init + [last], a, v) <==>
      Lists(init, a, v) || last == Pair(Some(Address(a.family, v)), Some(a))
  {
  }

  lemma MappingIpAccepts(nets: map<Family, Network>, init: seq<Line>, last: Line, now: int, s: State)
    requires Acceptable(nets, init) && LoadedFrom(nets, init, now, s) && last.Pair?
    ensures MappingIp(s, last.dest, last.fake, now).Some? <==> WellPlaced(nets, last) && NewPair(init, last)
  {
    if WellPlaced(nets, last) {
      MappedIffListed(nets, init, now, s, last.dest.value);
      UsedIffListed(nets, init, now, s, last.fake.value);
    }
  }

  lemma PairLoaded(nets: map<Family, Network>, init: seq<Line>, last: Line, now: int, s: State)
    requires LoadedFrom(nets, init, now, s) && last.Pair?
    requires MappingIp(s, last.dest, last.fake, now).Some?
    ensures LoadedFrom(nets, init + [last], now, MappingIp(s, last.dest, last.fake, now).value)
  {
    var lines, dest, fake := init + [last], last.dest.value, last.fake.value;
    ListsOneMore(init, last);
    assert Lists(lines, dest, fake.value);
    var s' := MappingIp(s, last.dest, last.fake, now).value;
    forall a, v | Lists(lines, a, v) ensures a in s'.ipMap && s'.ipMap[a] == Entry(v, now) {
      if Lists(init, a, v) { assert a in s.ipMap; }
    }
  }

  lemma MappedIffListed(nets: map<Family, Network>, lines: seq<Line>, now: int, s: State, dest: Address)
    requires Acceptable(nets, lines) && LoadedFrom(nets, lines, now, s)
    ensures dest in s.ipMap <==> exists i :: 0 <= i < |lines| && lines[i].Pair? && lines[i].dest == Some(dest)
  {
    if i :| 0 <= i < |lines| && lines[i].Pair? && lines[i].dest == Some(dest) {
      assert WellPlaced(nets, lines[i]);
      assert Lists(lines, dest, lines[i].fake.value.value);
    }
  }

  lemma UsedIffListed(nets: map<Family, Network>, lines: seq<Line>, now: int, s: State, fake: Address)
    requires Acceptable(nets, lines) && LoadedFrom(nets, lines, now, s) && fake.family in nets
    ensures fake.value in s.pools[fake.family].used <==>
      exists i :: 0 <= i < |lines| && lines[i].Pair? && lines[i].fake == Some(fake)
  {
    if i :| 0 <= i < |lines| && lines[i].Pair? && lines[i].fake == Some(fake) {
      assert WellPlaced(nets, lines[i]);
      assert Lists(lines, lines[i].dest.value, fake.value);
    }
  }

  /** Every rule of the chains is printed exactly once, in any order, with any number of lines that are not rules. */
  ghost predicate ListingOf(lines: seq<Line>, chains: map<Family, seq<Rule>>) {
    && (forall i :: 0 <= i < |lines| && lines[i].Pair? ==>
          && lines[i].dest.Some? && lines[i].fake.Some?
          && lines[i].dest.value.family == lines[i].fake.value.family
          && lines[i].dest.value.family in chains
          && Rule(lines[i].fake.value.value, lines[i].dest.value.value) in chains[lines[i].dest.value.family])
    && (forall f, r :: f in chains && r in chains[f] ==> Lists(lines, Address(f, r.dest), r.fake))
    && (forall i, j :: 0 <= i < j < |lines| && lines[i].Pair? ==> lines[i] != lines[j])
  }

  ghost function Flush(chains: map<Family, seq<Rule>>, flushed: set<Family>): map<Family, seq<Rule>> {
    map f | f in chains :: if f in flushed then [] else chains[f]
  }

  /**
   Restart recovery: whatever reachable state the process died in, and whatever the order of the listing,
   loading accepts it and rebuilds the same real-to-fake map and the same used addresses.
   */
  lemma RestartRecovers(s: State, lines: seq<Line>, now: int)
    requires Inv(s) && ListingOf(lines, s.chains)
    ensures Load(Fresh(Nets(s), s.chains), lines, now).Some?
    ensures
      var s' := Load(Fresh(Nets(s), s.chains), lines, now).value;
      && Inv(s') && s'.chains == s.chains && s'.ipMap.Keys == s.ipMap.Keys
      && (forall a :: a in s.ipMap ==> s'.ipMap[a] == Entry(s.ipMap[a].fake, now))
      && (forall f :: f in s.pools ==> s'.pools[f].used == s.pools[f].used)
  {
    var nets := Nets(s);
    assert forall f, r :: f in s.chains && r in s.chains[f] ==> r.fake in Fakes(s.chains[f]);
    forall i | 0 <= i < |lines| ensures WellPlaced(nets, lines[i]) {
      if lines[i].Pair? {
        var f := lines[i].dest.value.family;
        assert FamilyInv(s, f);
        assert lines[i].fake.value.value in s.pools[f].used;
      }
    }
    forall i, j | 0 <= i < j < |lines| && lines[i].Pair? && lines[j].Pair?
      ensures lines[i].dest != lines[j].dest && lines[i].fake != lines[j].fake
    {
      if lines[i].dest == lines[j].dest || lines[i].fake == lines[j].fake {
        SamePair(s, lines[i], lines[j]);
      }
    }
    LoadExact(nets, s.chains, lines, now);
    LoadedMirrors(s, lines, now, Load(Fresh(nets, s.chains), lines, now).value);
  }

  lemma SamePair(s: State, x: Line, y: Line)
    requires Inv(s) && x.Pair? && y.Pair?
    requires x.dest.Some? && x.fake.Some? && x.dest.value.family == x.fake.value.family &&
      x.dest.value.family in s.chains
    requires y.dest.Some? && y.fake.Some? && y.dest.value.family == y.fake.value.family &&
      y.dest.value.family in s.chains
    requires Rule(x.fake.value.value, x.dest.value.value) in s.chains[x.dest.value.family]
    requires Rule(y.fake.value.value, y.dest.value.value) in s.chains[y.dest.value.family]
    requires x.dest == y.dest || x.fake == y.fake
    ensures x == y
  {
    var f := x.dest.value.family;
    assert FamilyInv(s, f);
    var chain := s.chains[f];
    var i :| 0 <= i < |chain| && chain[i] == Rule(x.fake.value.value, x.dest.value.value);
    var j :| 0 <= j < |chain| && chain[j] == Rule(y.fake.value.value, y.dest.value.value);
    assert i == j;
  }

  lemma LoadedFamily(s: State, lines: seq<Line>, now: int, s': State, f: Family)
    requires Inv(s) && ListingOf(lines, s.chains) && f in s.pools
    requires LoadedFrom(Nets(s), lines, now, s') && s'.chains == s.chains
    requires s'.ipMap.Keys == s.ipMap.Keys && forall a :: a in s.ipMap ==> s'.ipMap[a] == Entry(s.ipMap[a].fake, now)
    ensures FamilyInv(s', f) && s'.pools[f].used == s.pools[f].used
  {
    SameUsed(s, lines, now, s', f);
    assert FamilyInv(s, f);
    MirrorsDependsOnPairs(f, s.pools[f], s.ipMap, s'.ipMap, s.chains[f]);
  }

  lemma LoadedMirrors(s: State, lines: seq<Line>, now: int, s': State)
    requires Inv(s) && ListingOf(lines, s.chains)
    requires LoadedFrom(Nets(s), lines, now, s') && s'.chains == s.chains
    ensures Inv(s') && s'.ipMap.Keys == s.ipMap.Keys
    ensures forall a :: a in s.ipMap ==> s'.ipMap[a] == Entry(s.ipMap[a].fake, now)
    ensures forall f :: f in s.pools ==> s'.pools[f].used == s.pools[f].used
  {
    SamePairs(s, lines, now, s');
    assert s'.pools.Keys == s.pools.Keys;
    forall f | f in s.pools ensures FamilyInv(s', f) && s'.pools[f].used == s.pools[f].used {
      LoadedFamily(s, lines, now, s', f);
    }
  }

  lemma SamePairs(s: State, lines: seq<Line>, now: int, s': State)
    requires Inv(s) && ListingOf(lines, s.chains)
    requires LoadedFrom(Nets(s), lines, now, s')
    ensures s'.ipMap.Keys == s.ipMap.Keys
    ensures forall a :: a in s.ipMap ==> s'.ipMap[a] == Entry(s.ipMap[a].fake, now)
  {
    forall a: Address
      ensures a in s'.ipMap <==> a in s.ipMap
      ensures a in s.ipMap ==> s'.ipMap[a] == Entry(s.ipMap[a].fake, now)
    {
      if a in s.ipMap { ListedIffMapped(s, lines, a, s.ipMap[a].fake); }
      if a in s'.ipMap { ListedIffMapped(s, lines, a, s'.ipMap[a].fake); }
    }
  }

  lemma SameUsed(s: State, lines: seq<Line>, now: int, s': State, f: Family)
    requires Inv(s) && ListingOf(lines, s.chains) && f in s.pools
    requires LoadedFrom(Nets(s), lines, now, s')
    ensures s'.pools[f].used == s.pools[f].used
  {
    assert FamilyInv(s, f);
    forall v | v in s'.pools[f].used ensures v in s.pools[f].used {
      var a: Address :| a.family == f && Lists(lines, a, v);
      assert Rule(v, a.value) in s.chains[f];
    }
    forall v | v in s.pools[f].used ensures v in s'.pools[f].used {
      var r :| r in s.chains[f] && r.fake == v;
      assert Lists(lines, Address(f, r.dest), v);
    }
  }

  lemma ListedIffMapped(s: State, lines: seq<Line>, a: Address, v: nat)
    requires Inv(s) && ListingOf(lines, s.chains)
    ensures Lists(lines, a, v) <==> a in s.ipMap && s.ipMap[a].fake == v
  {
    if Lists(lines, a, v) {
      assert FamilyInv(s, a.family);
      assert Rule(v, a.value) in s.chains[a.family];
    } else if a in s.ipMap {
      assert FamilyInv(s, a.family);
      assert Rule(s.ipMap[a].fake, a.value) in s.chains[a.family];
      assert Address(a.family, a.value) == a;
    }
  }
}
