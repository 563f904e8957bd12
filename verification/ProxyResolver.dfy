/**
 The resolver object of setup/root/antizapret/proxy.py. Each method is one critical section of its lock and is
 proved against the state machine of ProxyModel; external commands take a flag that says whether they succeed.
 */
module ProxyResolver {
  import opened Options
  import opened FakeIpPool
  import opened ProxyModel
  import opened DnsRewrite

  /** Deleting the first matching rule, as "-D" does; nothing when no rule matches. */
  function DeleteRule(chain: seq<Rule>, rule: Rule): Option<seq<Rule>> {
    if chain == [] then None
    else if chain[0] == rule then Some(chain[1..])
    else
      match DeleteRule(chain[1..], rule)
      case None => None
      case Some(rest) => Some([chain[0]] + rest)
  }

  /** A whole iptables-restore batch of deletions: all of them or none. */
  function DeleteBatch(chain: seq<Rule>, batch: seq<Rule>): Option<seq<Rule>>
    decreases batch
  {
    if batch == [] then Some(chain)
    else
      match DeleteRule(chain, batch[0])
      case None => None
      case Some(rest) => DeleteBatch(rest, batch[1..])
  }

  lemma {:induction false} DeleteRuleExact(chain: seq<Rule>, rule: Rule)
    requires UniqueRules(chain) && rule in chain
    ensures DeleteRule(chain, rule) == Some(Without(chain, {rule.dest}))
  {
    if chain[0] == rule {
      forall r | r in chain[1..] ensures r.dest !in {rule.dest} {
        var i :| 0 <= i < |chain[1..]| && chain[1..][i] == r;
        assert chain[i + 1] == r;
      }
      WithoutNothing(chain[1..], {rule.dest});
      WithoutSplits(chain[..1], chain[1..], {rule.dest});
      assert chain[..1] + chain[1..] == chain;
      assert chain[..1][..0] == [] && chain[..1][0] == rule;
      assert Without(chain[..1], {rule.dest}) == [];
      assert Without(chain, {rule.dest}) == [] + chain[1..];
      assert [] + chain[1..] == chain[1..];
    } else {
      DeleteRuleExact(chain[1..], rule);
      WithoutSplits(chain[..1], chain[1..], {rule.dest});
      assert chain[..1] + chain[1..] == chain;
      WithoutNothing(chain[..1], {rule.dest});
    }
  }

  lemma {:induction false} WithoutSplits(a: seq<Rule>, b: seq<Rule>, dests: set<nat>)
    ensures Without(a + b, dests) == Without(a, dests) + Without(b, dests)
  {
    if b == [] {
      assert a + b == a;
    } else {
      assert (a + b)[..|a + b| - 1] == a + b[..|b| - 1];
      WithoutSplits(a, b[..|b| - 1], dests);
    }
  }

  lemma {:induction false} WithoutNothing(chain: seq<Rule>, dests: set<nat>)
    requires forall r :: r in chain ==> r.dest !in dests
    ensures Without(chain, dests) == chain
  {
    if chain != [] {
      WithoutNothing(chain[..|chain| - 1], dests);
    }
  }

  lemma {:induction false} WithoutTwice(chain: seq<Rule>, a: set<nat>, b: set<nat>)
    ensures Without(Without(chain, a), b) == Without(chain, a + b)
  {
    if chain != [] {
      var init, last := chain[..|chain| - 1], chain[|chain| - 1];
      WithoutTwice(init, a, b);
      if last.dest !in a {
        WithoutSplits(Without(init, a), [last], b);
        assert [last][..0] == [];
      }
    }
  }

  ghost function Dests(batch: seq<Rule>): set<nat> {
    set r | r in batch :: r.dest
  }

  /** A batch made of distinct rules of the chain is never refused for a missing rule, and removes exactly those. */
  lemma {:induction false} DeleteBatchExact(chain: seq<Rule>, batch: seq<Rule>)
    requires UniqueRules(chain)
    requires forall r :: r in batch ==> r in chain
    requires forall i, j :: 0 <= i < j < |batch| ==> batch[i] != batch[j]
    decreases batch
    ensures DeleteBatch(chain, batch) == Some(Without(chain, Dests(batch)))
  {
    if batch == [] {
      WithoutNothing(chain, Dests(batch));
    } else {
      DeleteRuleExact(chain, batch[0]);
      var rest := Without(chain, {batch[0].dest});
      WithoutKeepsOthers(chain, {batch[0].dest});
      forall r | r in batch[1..] ensures r in rest {
        DistinctDests(chain, r, batch[0]);
      }
      DeleteBatchExact(rest, batch[1..]);
      WithoutTwice(chain, {batch[0].dest}, Dests(batch[1..]));
      assert {batch[0].dest} + Dests(batch[1..]) == Dests(batch);
    }
  }

  lemma DistinctDests(chain: seq<Rule>, r: Rule, q: Rule)
    requires UniqueRules(chain) && r in chain && q in chain && r != q
    ensures r.dest != q.dest
  {
    var i :| 0 <= i < |chain| && chain[i] == r;
    var j :| 0 <= j < |chain| && chain[j] == q;
  }

  /** The outside world: the DNAT chain of each family. */
  class Netfilter {
    var chains: map<Family, seq<Rule>>

    constructor (chains: map<Family, seq<Rule>>)
      ensures this.chains == chains
    {
      this.chains := chains;
    }

    method Append(f: Family, rule: Rule, works: bool) returns (ok: bool)
      requires f in chains
      modifies this
      ensures ok == works
      ensures chains == if ok then old(chains)[f := old(chains)[f] + [rule]] else old(chains)
    {
      if works {
        chains := chains[f := chains[f] + [rule]];
      }
      return works;
    }

    method Restore(f: Family, batch: seq<Rule>, works: bool) returns (ok: bool)
      requires f in chains
      modifies this
      ensures ok == (works && DeleteBatch(old(chains)[f], batch).Some?)
      ensures chains == if ok then old(chains)[f := DeleteBatch(old(chains)[f], batch).value] else old(chains)
    {
      match DeleteBatch(chains[f], batch)
      case None => return false;
      case Some(rest) =>
        if works {
          chains := chains[f := rest];
        }
        return works;
    }
  }

  ghost function PoolMap(v4: Pool, v6: Option<Pool>): map<Family, Pool> {
    if v6.None? then map[V4 := v4] else map[V4 := v4, V6 := v6.value]
  }

  lemma PoolReplaced(v4: Pool, v6: Option<Pool>, f: Family, p: Pool)
    requires f == V6 ==> v6.Some?
    ensures PoolMap(v4, v6)[f := p] == if f == V4 then PoolMap(p, v6) else PoolMap(v4, Some(p))
  {
  }

  class ProxyResolver {
    const netfilter: Netfilter
    const pool4: FakeIPPool
    const pool6: FakeIPPool?
    const cleanupExpiry: int
    var ipMap: map<Address, Entry>

    ghost function Footprint(): set<object> {
      {this, netfilter, pool4} + if pool6 == null then {} else {pool6}
    }

    ghost function View(): State
      reads Footprint()
    {
      State(PoolMap(pool4.View(), if pool6 == null then None else Some(pool6.View())), ipMap, netfilter.chains)
    }

    ghost predicate PoolsValid()
      reads Footprint()
    {
      pool4 != pool6 && pool4.Valid() && (pool6 != null ==> pool6.Valid())
    }

    ghost predicate Valid()
      reads Footprint()
    {
      PoolsValid() && Inv(View())
    }

    function PoolOf(f: Family): (pool: FakeIPPool?)
      ensures pool != null ==> pool in Footprint()
    {
      if f == V4 then pool4 else pool6
    }

    /** A process that has loaded nothing yet; Load fills it from the surviving chains. */
    constructor (netfilter: Netfilter, net4: Network, net6: Option<Network>, cleanupExpiry: int)
      ensures this.netfilter == netfilter && this.cleanupExpiry == cleanupExpiry
      ensures fresh(pool4) && (pool6 != null ==> fresh(pool6))
      ensures PoolsValid()
      ensures pool6 == null <==> net6.None?
      ensures View() ==
        Fresh(if net6.Some? then map[V4 := net4, V6 := net6.value] else map[V4 := net4], netfilter.chains)
    {
      this.netfilter, this.cleanupExpiry, ipMap := netfilter, cleanupExpiry, map[];
      pool4 := new FakeIPPool(net4);
      if net6.Some? {
        var pool := new FakeIPPool(net6.value);
        pool6 := pool;
      } else {
        pool6 := null;
      }
      new;
      assert View() ==
        Fresh(if net6.Some? then map[V4 := net4, V6 := net6.value] else map[V4 := net4], netfilter.chains);
    }

    method GetFakeIp(dest: Address, now: int, ruleAdded: bool) returns (answer: Option<nat>)
      requires Valid()
      modifies Footprint()
      ensures Valid()
      ensures LookupNext(old(View()), dest, now, ruleAdded, View())
      ensures answer == Answer(View(), dest)
    {
      ghost var before := View();
      var pool := PoolOf(dest.family);
      if pool == null {
        answer := None;
        assert View() == before && dest.family !in before.pools;
      } else if dest in ipMap {
        answer := Some(ipMap[dest].fake);
        ipMap := ipMap[dest := Entry(ipMap[dest].fake, now)];
        HitIsLookup(before, dest, now, ruleAdded);
        assert View() == before.(ipMap := ipMap);
      } else {
        ghost var r, p, v4, v6 := None, pool.View(), pool4.View(), if pool6 == null then None else Some(pool6.View());
        answer, r, p := AddMapping(pool, dest, now, ruleAdded);
        PoolReplaced(v4, v6, dest.family, pool.View());
        MissIsLookup(before, dest, now, ruleAdded, r, p, answer, View());
      }
    }

    /**
     The second half of get_fake_ip: an address with its rule and its map entry, or the address given back at once.
     */
    method AddMapping(pool: FakeIPPool, dest: Address, now: int, ruleAdded: bool)
      returns (answer: Option<nat>, ghost r: Option<nat>, ghost p: Pool)
      requires PoolsValid() && pool == PoolOf(dest.family) && dest.family in netfilter.chains
      modifies this`ipMap, pool, netfilter
      ensures PoolsValid() && Allocates(old(pool.View()), r, p)
      ensures answer == if ruleAdded then r else None
      ensures answer.Some? ==>
        && pool.View() == p && ipMap == old(ipMap)[dest := Entry(answer.value, now)]
        && netfilter.chains == old(netfilter.chains)[
             dest.family := old(netfilter.chains)[dest.family] + [Rule(answer.value, dest.value)]]
      ensures answer.None? ==>
        && pool.View() == (if r.Some? then Released(p, r.value) else p)
        && ipMap == old(ipMap) && netfilter.chains == old(netfilter.chains)
    {
      answer := pool.Allocate();
      r, p := answer, pool.View();
      if answer.None? {
        return;
      }
      var ok := netfilter.Append(dest.family, Rule(answer.value, dest.value), ruleAdded);
      if ok {
        ipMap := ipMap[dest := Entry(answer.value, now)];
      } else {
        pool.Release(answer.value);
        answer := None;
      }
    }

    /** The first loop of cleanup_fake_ips: every idle mapping once, in some order. */
    method CollectExpired(now: int) returns (expired: seq<Address>)
      ensures forall f :: CollectedAt(expired, f, ipMap, now, cleanupExpiry)
    {
      expired := [];
      var left := ipMap.Keys;
      while left != {}
        invariant left <= ipMap.Keys
        invariant forall a :: a in expired <==> a in ipMap && a !in left && now - ipMap[a].lastAccess > cleanupExpiry
        invariant forall i, j :: 0 <= i < j < |expired| ==> expired[i] != expired[j]
      {
        var a :| a in left;
        left := left - {a};
        if now - ipMap[a].lastAccess > cleanupExpiry {
          expired := expired + [a];
        }
      }
    }

    /** The batch of one family, the command, and only then the release of what it deleted. */
    method CleanFamilyRules(f: Family, expired: seq<Address>, works: bool) returns (ok: bool)
      requires PoolsValid() && PoolOf(f) != null && f in netfilter.chains
      requires Collected(expired, f, ipMap, PoolOf(f).used)
      requires DeleteBatch(netfilter.chains[f], BatchFor(expired, f, ipMap)).Some?
      modifies this`ipMap, PoolOf(f), netfilter
      ensures PoolsValid()
      ensures ok == (works || BatchFor(expired, f, old(ipMap)) == [])
      ensures View() == if ok then Applied(old(View()), f, expired) else old(View())
    {
      var batch := BuildBatch(f, expired);
      if batch == [] {
        EmptyBatch(expired, f, View());
        return true;
      }
      ghost var v4, v6 := pool4.View(), if pool6 == null then None else Some(pool6.View());
      ok := netfilter.Restore(f, batch, works);
      if ok {
        ForgetExpired(PoolOf(f), f, expired);
        PoolReplaced(v4, v6, f, PoolOf(f).View());
      }
    }

    method BuildBatch(f: Family, expired: seq<Address>) returns (batch: seq<Rule>)
      requires forall a :: a in expired && a.family == f ==> a in ipMap
      ensures batch == BatchFor(expired, f, ipMap)
    {
      batch := [];
      for k := 0 to |expired|
        invariant batch == BatchFor(expired[..k], f, ipMap)
      {
        assert expired[..k + 1][..k] == expired[..k];
        if expired[k].family == f {
          batch := batch + [Rule(ipMap[expired[k]].fake, expired[k].value)];
        }
      }
      assert expired[..|expired|] == expired;
    }

    method ForgetExpired(pool: FakeIPPool, f: Family, expired: seq<Address>)
      requires pool.Valid()
      requires Collected(expired, f, ipMap, pool.used)
      modifies this`ipMap, pool
      ensures pool.Valid()
      ensures ipMap == old(ipMap) - Picked(expired, f)
      ensures pool.View() == GivenBack(old(pool.View()), FakesOf(Picked(expired, f), old(ipMap)))
    {
      ghost var p0, m0 := pool.View(), ipMap;
      for k := 0 to |expired|
        invariant pool.Valid()
        invariant ipMap == m0 - Picked(expired[..k], f)
        invariant pool.View() == GivenBack(p0, FakesOf(Picked(expired[..k], f), m0))
      {
        var a := expired[k];
        PickedOneMore(expired, k, f, m0);
        if a.family == f {
          GivenBackOneMore(p0, Picked(expired[..k], f), m0, a);
          pool.Release(ipMap[a].fake);
          ipMap := ipMap - {a};
        }
      }
      assert expired[..|expired|] == expired;
    }

    method CleanupFakeIps(now: int, failing: set<Family>) returns (raised: bool)
      requires Valid()
      modifies Footprint()
      ensures Valid()
      ensures (View(), raised) == Cleanup(old(View()), now, cleanupExpiry, failing)
    {
      ghost var before := View();
      var expired := CollectExpired(now);
      AppliedIsCleanup(before, V4, expired, now, cleanupExpiry, failing);
      var ok := CleanFamilyRules(V4, expired, V4 !in failing);
      if !ok {
        return true;
      }
      ghost var between := View();
      if pool6 != null {
        assert CollectedAt(expired, V6, before.ipMap, now, cleanupExpiry);
        assert CollectedAt(expired, V6, between.ipMap, now, cleanupExpiry);
        AppliedIsCleanup(between, V6, expired, now, cleanupExpiry, failing);
        ok := CleanFamilyRules(V6, expired, V6 !in failing);
      }
      raised := !ok;
    }

    method MappingIp(dest: Option<Address>, fake: Option<Address>, now: int) returns (ok: bool)
      requires PoolsValid()
      modifies Footprint() - {netfilter}
      ensures PoolsValid()
      ensures ok == ProxyModel.MappingIp(old(View()), dest, fake, now).Some?
      ensures View() == if ok then ProxyModel.MappingIp(old(View()), dest, fake, now).value else old(View())
    {
      if dest.None? || fake.None? || dest.value.family != fake.value.family {
        return false;
      }
      var pool := PoolOf(dest.value.family);
      if pool == null || dest.value in ipMap {
        return false;
      }
      ok := pool.Claim(fake.value.value);
      if ok {
        ipMap := ipMap[dest.value := Entry(fake.value.value, now)];
      }
    }

    /** The loading loop of __init__ over the listed chains; the caller flushes and exits when it is rejected. */
    method LoadMappings(lines: seq<Line>, now: int) returns (ok: bool)
      requires PoolsValid()
      modifies Footprint() - {netfilter}
      ensures PoolsValid()
      ensures ok == Load(old(View()), lines, now).Some?
      ensures ok ==> Load(old(View()), lines, now) == Some(View())
    {
      for k := 0 to |lines|
        invariant PoolsValid()
        invariant Load(old(View()), lines[..k], now) == Some(View())
      {
        assert lines[..k + 1][..k] == lines[..k];
        match lines[k]
        case Short =>
        case Pair(fake, dest) =>
          var mapped := MappingIp(dest, fake, now);
          if !mapped {
            LoadStuck(old(View()), lines, k + 1, now);
            return false;
          }
      }
      assert lines[..|lines|] == lines;
      return true;
    }

    /**
     The whole of resolve: None stands for an upstream that failed; ruleAdded says which rule insertions work. A
     successful answer to an A question, and to an AAAA question where there is an IPv6 pool, is read back through the
     rules as the upstream's, or it is a failure, exactly when some asked address could not be given a fake one. Any
     other answer passes.
     */
    method Resolve(q: Query, upstream: Option<Reply>, now: int, ruleAdded: nat -> bool) returns (reply: Reply)
      requires Valid()
      modifies Footprint()
      ensures Valid()
      ensures KeepsBindings(old(ipMap), ipMap)
      ensures upstream.Some? ==> OnlyAsked(old(View()), View(), upstream.value.rr, q)
      ensures upstream.None? ==> reply == Reply(ServFail, []) && View() == old(View())
      ensures
        upstream.Some? && upstream.value.rcode == NoError && (q.qtype == A || (q.qtype == AAAA && pool6 != null)) ==>
        var f := if q.qtype == A then V4 else V6;
        && f in netfilter.chains
        && if Covered(upstream.value.rr, q, ipMap)
           then reply.rcode == NoError && ReadsAs(reply.rr, upstream.value.rr, q, netfilter.chains[f])
                && Stamped(upstream.value.rr, q, ipMap, now)
           else reply == Reply(ServFail, []) && exists k: nat ::
                  k < |upstream.value.rr| && Refused(View(), upstream.value.rr[k], q, ruleAdded(k))
      ensures
        upstream.Some? && !(upstream.value.rcode == NoError && (q.qtype == A || (q.qtype == AAAA && pool6 != null))) ==>
        reply == upstream.value && View() == old(View())
    {
      if upstream.None? {
        return Reply(ServFail, []);
      }
      var rr := upstream.value.rr;
      if !Rewrites(q, upstream.value) {
        return upstream.value;
      }
      var newRr := RewriteRecords(rr, q, now, ruleAdded);
      if newRr.None? {
        return Reply(ServFail, []);
      }
      RewrittenReadsAs(rr, q, View(), if q.qtype == A then V4 else V6);
      return Reply(NoError, newRr.value);
    }

    method RewriteRecords(
      rr: seq<Record>, q: Query, now: int, ruleAdded: nat -> bool
    ) returns (out: Option<seq<Record>>)
      requires Valid()
      modifies Footprint()
      ensures Valid()
      ensures KeepsBindings(old(ipMap), ipMap) && OnlyAsked(old(View()), View(), rr, q)
      ensures out == if Covered(rr, q, ipMap) then Some(Rewrite(rr, q, ipMap)) else None
      ensures out.Some? ==> Stamped(rr, q, ipMap, now)
      ensures out.None? ==> exists k: nat :: k < |rr| && Refused(View(), rr[k], q, ruleAdded(k))
    {
      var newRr := [];
      for k := 0 to |rr|
        invariant Valid()
        invariant KeepsBindings(old(ipMap), ipMap) && OnlyAsked(old(View()), View(), rr[..k], q)
        invariant Covered(rr[..k], q, ipMap) && newRr == Rewrite(rr[..k], q, ipMap)
        invariant Stamped(rr[..k], q, ipMap, now)
      {
        ghost var before := View();
        var one := RewriteRecord(rr[k], q, now, ruleAdded(k));
        OnlyAskedOneMore(old(View()), before, View(), rr, k, q);
        if one.None? {
          assert rr[k] in rr;
          OnlyAskedOfMore(old(View()), View(), rr, k + 1, q);
          return None;
        }
        ExtendRewrite(rr, k, q, before.ipMap, ipMap);
        StampedOneMore(rr, k, q, before, View(), now);
        newRr := newRr + one.value;
      }
      assert rr[..|rr|] == rr;
      return Some(newRr);
    }

    /** One round of the loop in resolve; nothing when the record's address could not be given a fake one. */
    method RewriteRecord(r: Record, q: Query, now: int, ruleAdded: bool) returns (out: Option<seq<Record>>)
      requires Valid()
      modifies Footprint()
      ensures Valid()
      ensures KeepsBindings(old(ipMap), ipMap) && OnlyAsked(old(View()), View(), [r], q)
      ensures out.None? ==> Refused(View(), r, q, ruleAdded)
      ensures out.Some? ==>
        && (r.rtype == q.qtype ==> AddressOf(r) in ipMap && ipMap[AddressOf(r)].lastAccess == now)
        && out.value == RewriteOne(r, q, if r.rtype == q.qtype then ipMap[AddressOf(r)].fake else 0)
    {
      if r.rtype != q.qtype {
        return Some([r]);
      }
      ghost var before := View();
      var answer := GetFakeIp(AddressOf(r), now, ruleAdded);
      LookupKeepsBindings(before, AddressOf(r), now, ruleAdded, View());
      LookupOnlyAsked(before, r, now, ruleAdded, View(), q);
      LookupAnswers(before, r, now, ruleAdded, View(), q);
      if answer.None? {
        return None;
      }
      return Some(RewriteOne(r, q, answer.value));
    }

    /** Only successful answers to address questions are rewritten, and AAAA only with an IPv6 pool. */
    predicate Rewrites(q: Query, reply: Reply) {
      reply.rcode == NoError && (q.qtype == A || q.qtype == AAAA) && (q.qtype != AAAA || pool6 != null)
    }
  }

  lemma HitIsLookup(s: State, dest: Address, now: int, ruleAdded: bool)
    requires Inv(s) && dest.family in s.pools && dest in s.ipMap
    ensures
      var s' := s.(ipMap := s.ipMap[dest := Entry(s.ipMap[dest].fake, now)]);
      Inv(s') && LookupNext(s, dest, now, ruleAdded, s')
  {
    LookupKeepsInv(s, dest, now, ruleAdded, s.(ipMap := s.ipMap[dest := Entry(s.ipMap[dest].fake, now)]));
  }

  lemma MissIsLookup(
    s: State, dest: Address, now: int, ruleAdded: bool, r: Option<nat>, p: Pool, answer: Option<nat>, s': State
  )
    requires Inv(s) && dest.family in s.pools && dest !in s.ipMap && Allocates(s.pools[dest.family], r, p)
    requires answer == if ruleAdded then r else None
    requires s'.pools == s.pools[dest.family := if answer.None? && r.Some? then Released(p, r.value) else p]
    requires answer.None? ==> s'.ipMap == s.ipMap && s'.chains == s.chains
    requires answer.Some? ==>
      && s'.ipMap == s.ipMap[dest := Entry(answer.value, now)]
      && s'.chains == s.chains[dest.family := s.chains[dest.family] + [Rule(answer.value, dest.value)]]
    ensures Inv(s') && LookupNext(s, dest, now, ruleAdded, s') && answer == Answer(s', dest)
  {
    assert s' == AfterAllocation(s, dest, now, ruleAdded, r, p);
    MissKeepsInv(s, dest, now, ruleAdded, r, p);
  }

  lemma {:induction false} LoadStuck(s: State, lines: seq<Line>, k: nat, now: int)
    requires k <= |lines| && Load(s, lines[..k], now).None?
    ensures Load(s, lines, now).None?
    decreases |lines| - k
  {
    if k == |lines| {
      assert lines[..k] == lines;
    } else {
      assert lines[..k + 1][..k] == lines[..k];
      LoadStuck(s, lines, k + 1, now);
    }
  }

  /** The collected addresses of one family are mapped, each once, to addresses its pool has in use. */
  ghost predicate Collected(expired: seq<Address>, f: Family, ipMap: map<Address, Entry>, used: set<nat>) {
    && (forall a :: a in expired && a.family == f ==> a in ipMap && ipMap[a].fake in used)
    && (forall i, j :: 0 <= i < j < |expired| ==> expired[i] != expired[j])
  }

  /** They are exactly the idle addresses of the family. */
  ghost predicate CollectedAt(expired: seq<Address>, f: Family, ipMap: map<Address, Entry>, now: int, expiry: int) {
    && (forall a: Address :: a.family == f ==> (a in expired <==> a in ipMap && IsExpired(ipMap[a], now, expiry)))
    && (forall i, j :: 0 <= i < j < |expired| ==> expired[i] != expired[j])
  }

  /** The state after the batch of one family went through and memory followed. */
  ghost function Applied(s: State, f: Family, expired: seq<Address>): State
    requires f in s.pools && f in s.chains && Collected(expired, f, s.ipMap, s.pools[f].used)
    requires DeleteBatch(s.chains[f], BatchFor(expired, f, s.ipMap)).Some?
  {
    State(
      s.pools[f := GivenBack(s.pools[f], FakesOf(Picked(expired, f), s.ipMap))],
      s.ipMap - Picked(expired, f),
      s.chains[f := DeleteBatch(s.chains[f], BatchFor(expired, f, s.ipMap)).value])
  }

  ghost function BatchFor(expired: seq<Address>, f: Family, ipMap: map<Address, Entry>): seq<Rule>
    requires forall a :: a in expired && a.family == f ==> a in ipMap
  {
    if expired == [] then []
    else
      var init, a := expired[..|expired| - 1], expired[|expired| - 1];
      BatchFor(init, f, ipMap) + if a.family == f then [Rule(ipMap[a].fake, a.value)] else []
  }

  ghost function Picked(expired: seq<Address>, f: Family): set<Address> {
    set a | a in expired && a.family == f
  }

  ghost function FakesOf(addresses: set<Address>, ipMap: map<Address, Entry>): set<nat> {
    set a | a in addresses && a in ipMap :: ipMap[a].fake
  }

  ghost function GivenBack(p: Pool, fakes: set<nat>): Pool {
    p.(used := p.used - fakes, released := p.released + fakes)
  }

  lemma {:induction false} NoneOfFamily(expired: seq<Address>, f: Family, ipMap: map<Address, Entry>)
    requires forall a :: a in expired && a.family == f ==> a in ipMap
    requires BatchFor(expired, f, ipMap) == []
    ensures Picked(expired, f) == {}
  {
    if expired != [] {
      assert expired == expired[..|expired| - 1] + [expired[|expired| - 1]];
      NoneOfFamily(expired[..|expired| - 1], f, ipMap);
    }
  }

  lemma GivenBackOneMore(p: Pool, picked: set<Address>, m: map<Address, Entry>, a: Address)
    requires a in m && a !in picked && m[a].fake in p.used
    ensures a in m - picked && (m - picked)[a] == m[a] && m - picked - {a} == m - (picked + {a})
    ensures Released(GivenBack(p, FakesOf(picked, m)), m[a].fake) == GivenBack(p, FakesOf(picked, m) + {m[a].fake})
  {
    var fakes := FakesOf(picked, m);
    if m[a].fake in fakes {
      assert fakes + {m[a].fake} == fakes;
    }
  }

  lemma PickedOneMore(expired: seq<Address>, k: nat, f: Family, m: map<Address, Entry>)
    requires k < |expired| && forall i, j :: 0 <= i < j < |expired| ==> expired[i] != expired[j]
    requires forall a :: a in expired && a.family == f ==> a in m
    ensures
      var a := expired[k];
      && a !in Picked(expired[..k], f)
      && (a.family != f ==> Picked(expired[..k + 1], f) == Picked(expired[..k], f))
      && (a.family == f ==>
            && Picked(expired[..k + 1], f) == Picked(expired[..k], f) + {a}
            && FakesOf(Picked(expired[..k + 1], f), m) == FakesOf(Picked(expired[..k], f), m) + {m[a].fake})
  {
    assert expired[..k + 1] == expired[..k] + [expired[k]];
  }

  lemma EmptyBatch(expired: seq<Address>, f: Family, s: State)
    requires f in s.pools && f in s.chains && Collected(expired, f, s.ipMap, s.pools[f].used)
    requires BatchFor(expired, f, s.ipMap) == []
    ensures Applied(s, f, expired) == s
  {
    NoneOfFamily(expired, f, s.ipMap);
    assert FakesOf(Picked(expired, f), s.ipMap) == {};
    assert GivenBack(s.pools[f], {}) == s.pools[f];
    assert s.ipMap - {} == s.ipMap;
    assert s.pools[f := s.pools[f]] == s.pools && s.chains[f := s.chains[f]] == s.chains;
  }

  lemma {:induction false} BatchMembers(expired: seq<Address>, f: Family, ipMap: map<Address, Entry>)
    requires forall a :: a in expired && a.family == f ==> a in ipMap
    requires forall i, j :: 0 <= i < j < |expired| ==> expired[i] != expired[j]
    ensures forall r :: r in BatchFor(expired, f, ipMap) <==>
      Address(f, r.dest) in expired && r.fake == ipMap[Address(f, r.dest)].fake
    ensures Distinct(BatchFor(expired, f, ipMap))
  {
    if expired != [] {
      var init, a := expired[..|expired| - 1], expired[|expired| - 1];
      assert expired == init + [a];
      BatchMembers(init, f, ipMap);
      var b := BatchFor(init, f, ipMap);
      assert a !in init;
      if a.family == f {
        assert Address(f, a.value) == a;
        assert forall i :: 0 <= i < |b| ==> b[i] in b;
      }
    }
  }

  ghost predicate Distinct(batch: seq<Rule>) {
    forall i, j :: 0 <= i < j < |batch| ==> batch[i] != batch[j]
  }

  lemma BatchExact(s: State, f: Family, expired: seq<Address>, now: int, expiry: int)
    requires Inv(s) && f in s.pools && CollectedAt(expired, f, s.ipMap, now, expiry)
    ensures Collected(expired, f, s.ipMap, s.pools[f].used)
    ensures
      var batch := BatchFor(expired, f, s.ipMap);
      && (forall r :: r in batch ==> r in s.chains[f])
      && Distinct(batch)
      && Dests(batch) == ExpiredDests(s.ipMap, f, now, expiry)
  {
    assert FamilyInv(s, f);
    BatchMembers(expired, f, s.ipMap);
    var batch := BatchFor(expired, f, s.ipMap);
    forall r | r in batch ensures r in s.chains[f] {
      assert Binds(s.ipMap, f, r);
    }
    forall a | a in expired && a.family == f
      ensures a.value in Dests(batch) && s.ipMap[a].fake in s.pools[f].used
    {
      var r := Rule(s.ipMap[a].fake, a.value);
      assert Address(f, r.dest) == a;
      assert r in batch && Binds(s.ipMap, f, r);
    }
    assert Dests(batch) == ExpiredDests(s.ipMap, f, now, expiry);
  }

  lemma AppliedIsClean(s: State, f: Family, expired: seq<Address>, now: int, expiry: int)
    requires f in s.pools && f in s.chains
    requires CollectedAt(expired, f, s.ipMap, now, expiry) && Collected(expired, f, s.ipMap, s.pools[f].used)
    requires DeleteBatch(s.chains[f], BatchFor(expired, f, s.ipMap)) ==
      Some(Without(s.chains[f], ExpiredDests(s.ipMap, f, now, expiry)))
    ensures Applied(s, f, expired) == CleanFamily(s, f, now, expiry)
  {
    var gone, picked := ExpiredDests(s.ipMap, f, now, expiry), Picked(expired, f);
    forall a | a in s.ipMap && a.family == f ensures a.value in gone <==> a in picked {
      if a.value in gone {
        var b :| b in s.ipMap && b.family == f && IsExpired(s.ipMap[b], now, expiry) && b.value == a.value;
        assert b == a;
      }
    }
    assert FakesOf(picked, s.ipMap) == set a | a in s.ipMap && a.family == f && a.value in gone :: s.ipMap[a].fake;
    assert s.ipMap - picked == CleanFamily(s, f, now, expiry).ipMap;
  }

  /** One family of the loop, said as the cleanup of the state machine; in particular its batch cannot miss a rule. */
  lemma AppliedIsCleanup(s: State, f: Family, expired: seq<Address>, now: int, expiry: int, failing: set<Family>)
    requires Inv(s) && f in s.pools && CollectedAt(expired, f, s.ipMap, now, expiry)
    ensures Collected(expired, f, s.ipMap, s.pools[f].used) &&
      DeleteBatch(s.chains[f], BatchFor(expired, f, s.ipMap)).Some?
    ensures
      var ok := f !in failing || BatchFor(expired, f, s.ipMap) == [];
      CleanupFamily(s, f, now, expiry, failing) == (if ok then Applied(s, f, expired) else s, !ok)
    ensures Inv(CleanupFamily(s, f, now, expiry, failing).0)
  {
    BatchIsClean(s, f, expired, now, expiry);
    CleanFamilyKeepsInv(s, f, now, expiry);
    if BatchFor(expired, f, s.ipMap) == [] {
      EmptyBatch(expired, f, s);
    }
  }

  lemma BatchIsClean(s: State, f: Family, expired: seq<Address>, now: int, expiry: int)
    requires Inv(s) && f in s.pools && CollectedAt(expired, f, s.ipMap, now, expiry)
    ensures
      var batch := BatchFor(expired, f, s.ipMap);
      && Collected(expired, f, s.ipMap, s.pools[f].used) && DeleteBatch(s.chains[f], batch).Some?
      && Applied(s, f, expired) == CleanFamily(s, f, now, expiry)
      && (batch == [] <==> ExpiredDests(s.ipMap, f, now, expiry) == {})
  {
    BatchExact(s, f, expired, now, expiry);
    assert FamilyInv(s, f);
    var batch := BatchFor(expired, f, s.ipMap);
    DeleteBatchExact(s.chains[f], batch);
    AppliedIsClean(s, f, expired, now, expiry);
    if batch != [] {
      assert batch[0].dest in Dests(batch);
    }
  }
}
