/** What the proxy does to the records of an answer, and how the DNAT rules undo it (proxy.py, the loop of resolve). */
module DnsRewrite {
  import opened Options
  import opened FakeIpPool
  import opened ProxyModel
  import opened ProxyRuns

  datatype RecordType = A | AAAA | OtherType(code: int)
  /** The data of an address record is the address; any other data is opaque. */
  datatype Record = Record(rtype: RecordType, ttl: nat, data: nat)
  datatype Rcode = NoError | ServFail | OtherCode(code: int)
  datatype Reply = Reply(rcode: Rcode, rr: seq<Record>)

  /** The parameters of one rewriting: the question's type and the resolver's limits. */
  datatype Query = Query(qtype: RecordType, smtp: bool, minTtl: nat, maxTtl: nat)

  function AddressOf(r: Record): Address {
    Address(if r.rtype == AAAA then V6 else V4, r.data)
  }

  function Clamped(r: Record, q: Query): Record {
    if r.rtype == q.qtype then r.(ttl := ClampTtl(r.ttl, q.minTtl, q.maxTtl)) else r
  }

  function ClampedAll(rr: seq<Record>, q: Query): seq<Record> {
    seq(|rr|, i requires 0 <= i < |rr| => Clamped(rr[i], q))
  }

  /** One record as the client may see it: the time to live kept inside the limits, everything else untouched. */
  ghost predicate InLimits(r: Record, c: Record, q: Query) {
    && c.rtype == r.rtype && c.data == r.data
    && (r.rtype != q.qtype ==> c.ttl == r.ttl)
    && (r.rtype == q.qtype && r.ttl < q.minTtl ==> c.ttl == q.minTtl)
    && (r.rtype == q.qtype && q.minTtl <= r.ttl <= q.maxTtl ==> c.ttl == r.ttl)
    && (r.rtype == q.qtype && q.minTtl <= r.ttl && q.maxTtl < r.ttl ==> c.ttl == q.maxTtl)
  }

  lemma ClampedAllExact(rr: seq<Record>, q: Query)
    ensures |ClampedAll(rr, q)| == |rr| && forall i :: 0 <= i < |rr| ==> InLimits(rr[i], ClampedAll(rr, q)[i], q)
  {
  }

  /** Every record of the asked type has a fake address in the map. */
  ghost predicate Covered(rr: seq<Record>, q: Query, ipMap: map<Address, Entry>) {
    forall r :: r in rr && r.rtype == q.qtype ==> AddressOf(r) in ipMap
  }

  function RewriteOne(r: Record, q: Query, fake: nat): seq<Record> {
    var c := Clamped(r, q);
    if r.rtype != q.qtype then [c]
    else if q.smtp then [c, c.(data := fake)]
    else [c.(data := fake)]
  }

  ghost function Rewrite(rr: seq<Record>, q: Query, ipMap: map<Address, Entry>): seq<Record>
    requires Covered(rr, q, ipMap)
  {
    if rr == [] then []
    else
      var r := rr[|rr| - 1];
      Rewrite(rr[..|rr| - 1], q, ipMap) + RewriteOne(r, q, if r.rtype == q.qtype then ipMap[AddressOf(r)].fake else 0)
  }

  /** The map of a later state keeps these bindings. */
  ghost predicate KeepsBindings(m: map<Address, Entry>, m': map<Address, Entry>) {
    forall a :: a in m ==> a in m' && m'[a].fake == m[a].fake
  }

  lemma LookupKeepsBindings(s: State, dest: Address, now: int, ruleAdded: bool, s': State)
    requires s.chains.Keys == s.pools.Keys && LookupNext(s, dest, now, ruleAdded, s')
    ensures KeepsBindings(s.ipMap, s'.ipMap)
  {
  }

  lemma {:induction false} RewriteStable(rr: seq<Record>, q: Query, m: map<Address, Entry>, m': map<Address, Entry>)
    requires Covered(rr, q, m) && KeepsBindings(m, m')
    ensures Covered(rr, q, m') && Rewrite(rr, q, m') == Rewrite(rr, q, m)
  {
    if rr != [] {
      RewriteStable(rr[..|rr| - 1], q, m, m');
    }
  }

  /** The records of an answer, read back through the rules, are the upstream's, in order and inside the limits. */
  ghost predicate ReadsAs(out: seq<Record>, rr: seq<Record>, q: Query, chain: seq<Rule>) {
    var back := MapBack(out, q, chain);
    back.Some? && |back.value| == |rr| && forall i :: 0 <= i < |rr| ==> InLimits(rr[i], back.value[i], q)
  }

  predicate Asked(rr: seq<Record>, q: Query, a: Address) {
    exists i :: 0 <= i < |rr| && rr[i].rtype == q.qtype && AddressOf(rr[i]) == a
  }

  /** Every address that was not asked about keeps its binding with its stamp, its rule, or the absence of both. */
  ghost predicate OnlyAsked(s: State, s': State, rr: seq<Record>, q: Query) {
    && s'.chains.Keys == s.chains.Keys
    && (forall a :: !Asked(rr, q, a) ==>
          (a in s'.ipMap <==> a in s.ipMap) && (a in s.ipMap ==> s'.ipMap[a] == s.ipMap[a]))
    && (forall f, r: Rule :: f in s.chains && !Asked(rr, q, Address(f, r.dest)) ==>
          (r in s'.chains[f] <==> r in s.chains[f]))
  }

  /** An asked record whose address got no fake one: its rule was refused, or its pool has no address left. */
  ghost predicate Refused(s: State, r: Record, q: Query, ruleAdded: bool) {
    && r.rtype == q.qtype && AddressOf(r) !in s.ipMap
    && (ruleAdded && AddressOf(r).family in s.pools ==>
          s.pools[AddressOf(r).family].used == Hosts(s.pools[AddressOf(r).family].net))
  }

  /** Every asked address is bound, with this time as its stamp. */
  ghost predicate Stamped(rr: seq<Record>, q: Query, ipMap: map<Address, Entry>, now: int) {
    forall i :: 0 <= i < |rr| && rr[i].rtype == q.qtype ==>
      AddressOf(rr[i]) in ipMap && ipMap[AddressOf(rr[i])].lastAccess == now
  }

  lemma LookupAnswers(s: State, r: Record, now: int, ruleAdded: bool, s': State, q: Query)
    requires s.chains.Keys == s.pools.Keys && LookupNext(s, AddressOf(r), now, ruleAdded, s')
    requires AddressOf(r) in s.ipMap ==> AddressOf(r).family in s.pools
    requires r.rtype == q.qtype
    ensures AddressOf(r) !in s'.ipMap ==> Refused(s', r, q, ruleAdded)
    ensures AddressOf(r) in s'.ipMap ==> s'.ipMap[AddressOf(r)].lastAccess == now
  {
  }

  lemma StampedOneMore(rr: seq<Record>, k: nat, q: Query, t: State, s': State, now: int)
    requires k < |rr| && Stamped(rr[..k], q, t.ipMap, now) && OnlyAsked(t, s', [rr[k]], q)
    requires rr[k].rtype == q.qtype ==> AddressOf(rr[k]) in s'.ipMap && s'.ipMap[AddressOf(rr[k])].lastAccess == now
    ensures Stamped(rr[..k + 1], q, s'.ipMap, now)
  {
    forall i | 0 <= i < k && rr[i].rtype == q.qtype
      ensures AddressOf(rr[i]) in s'.ipMap && s'.ipMap[AddressOf(rr[i])].lastAccess == now
    {
      assert rr[..k][i] == rr[i];
      if Asked([rr[k]], q, AddressOf(rr[i])) {
        assert AddressOf(rr[i]) == AddressOf(rr[k]);
      }
    }
  }

  lemma LookupOnlyAsked(s: State, r: Record, now: int, ruleAdded: bool, s': State, q: Query)
    requires s.chains.Keys == s.pools.Keys && LookupNext(s, AddressOf(r), now, ruleAdded, s')
    requires r.rtype == q.qtype
    ensures OnlyAsked(s, s', [r], q)
  {
    assert [r][0] == r && Asked([r], q, AddressOf(r));
  }

  lemma OnlyAskedOneMore(s: State, t: State, s': State, rr: seq<Record>, k: nat, q: Query)
    requires k < |rr| && OnlyAsked(s, t, rr[..k], q) && OnlyAsked(t, s', [rr[k]], q)
    ensures OnlyAsked(s, s', rr[..k + 1], q)
  {
    forall a | !Asked(rr[..k + 1], q, a) ensures !Asked(rr[..k], q, a) && !Asked([rr[k]], q, a) {
      assert rr[..k + 1][k] == rr[k] && forall i :: 0 <= i < k ==> rr[..k][i] == rr[..k + 1][i];
    }
  }

  lemma OnlyAskedOfMore(s: State, s': State, rr: seq<Record>, k: nat, q: Query)
    requires k <= |rr| && OnlyAsked(s, s', rr[..k], q)
    ensures OnlyAsked(s, s', rr, q)
  {
    forall a | !Asked(rr, q, a) ensures !Asked(rr[..k], q, a) {
      assert forall i :: 0 <= i < k ==> rr[..k][i] == rr[i];
    }
  }

  /** One more record, looked up in a map that kept the earlier bindings. */
  lemma ExtendRewrite(rr: seq<Record>, k: nat, q: Query, m: map<Address, Entry>, m': map<Address, Entry>)
    requires k < |rr| && Covered(rr[..k], q, m) && KeepsBindings(m, m')
    requires rr[k].rtype == q.qtype ==> AddressOf(rr[k]) in m'
    ensures Covered(rr[..k + 1], q, m')
    ensures Rewrite(rr[..k + 1], q, m') ==
      Rewrite(rr[..k], q, m) + RewriteOne(rr[k], q, if rr[k].rtype == q.qtype then m'[AddressOf(rr[k])].fake else 0)
  {
    RewriteStable(rr[..k], q, m, m');
    assert rr[..k + 1] == rr[..k] + [rr[k]];
    assert rr[..k + 1][..k] == rr[..k];
  }

  /** Where the kernel sends a packet for this fake address: the destination of the first matching rule. */
  function DnatTarget(chain: seq<Rule>, fake: nat): Option<nat> {
    if chain == [] then None
    else if chain[0].fake == fake then Some(chain[0].dest)
    else DnatTarget(chain[1..], fake)
  }

  lemma {:induction false} DnatTargetUnique(chain: seq<Rule>, r: Rule)
    requires UniqueRules(chain) && r in chain
    ensures DnatTarget(chain, r.fake) == Some(r.dest)
  {
    if chain[0] != r {
      var i :| 0 <= i < |chain| && chain[i] == r;
      assert chain[1..][i - 1] == r;
      DnatTargetUnique(chain[1..], r);
    }
  }

  /** A rewritten answer read through the rules of its family; the direct copies made for mail servers are dropped. */
  function MapBack(out: seq<Record>, q: Query, chain: seq<Rule>): Option<seq<Record>>
    decreases |out|
  {
    if out == [] then Some([])
    else
      var last, init := out[|out| - 1], out[..|out| - 1];
      if last.rtype != q.qtype then Append(MapBack(init, q, chain), last)
      else
        match DnatTarget(chain, last.data)
        case None => None
        case Some(dest) =>
          var original := last.(data := dest);
          if !q.smtp then Append(MapBack(init, q, chain), original)
          else if init == [] || init[|init| - 1] != original then None
          else Append(MapBack(init[..|init| - 1], q, chain), original)
  }

  function Append(rr: Option<seq<Record>>, r: Record): Option<seq<Record>> {
    match rr
    case None => None
    case Some(xs) => Some(xs + [r])
  }

  /** Reading back one more rewritten record, whose fake address the rules send to `dest`. */
  lemma MapBackOneMore(front: seq<Record>, r: Record, q: Query, fake: nat, chain: seq<Rule>)
    requires r.rtype == q.qtype ==> DnatTarget(chain, fake) == Some(r.data)
    ensures MapBack(front + RewriteOne(r, q, fake), q, chain) == Append(MapBack(front, q, chain), Clamped(r, q))
  {
    var c := Clamped(r, q);
    var out := front + RewriteOne(r, q, fake);
    if r.rtype == q.qtype && q.smtp {
      assert out[..|out| - 1] == front + [c];
      assert (front + [c])[..|front|] == front;
      assert c.(data := fake).(data := r.data) == c;
    } else {
      assert out[..|out| - 1] == front;
    }
  }

  lemma RuleOfRecord(r: Record, q: Query, s: State, f: Family)
    requires Inv(s) && f in s.pools && r.rtype == q.qtype && AddressOf(r) in s.ipMap
    requires (q.qtype == A && f == V4) || (q.qtype == AAAA && f == V6)
    ensures DnatTarget(s.chains[f], s.ipMap[AddressOf(r)].fake) == Some(r.data)
  {
    var rule := Rule(s.ipMap[AddressOf(r)].fake, r.data);
    assert FamilyInv(s, f) && Binds(s.ipMap, f, rule);
    DnatTargetUnique(s.chains[f], rule);
  }

  /**
   Every rewritten record maps back through the rules to its original address, in the original order,
   with only the time to live clamped.
   */
  lemma {:induction false} RewriteMapsBack(rr: seq<Record>, q: Query, s: State, f: Family)
    requires Inv(s) && f in s.pools
    requires (q.qtype == A && f == V4) || (q.qtype == AAAA && f == V6)
    requires Covered(rr, q, s.ipMap)
    ensures MapBack(Rewrite(rr, q, s.ipMap), q, s.chains[f]) == Some(ClampedAll(rr, q))
  {
    if rr == [] {
      assert ClampedAll(rr, q) == [];
    } else {
      var init, r := rr[..|rr| - 1], rr[|rr| - 1];
      RewriteMapsBack(init, q, s, f);
      ClampedOneMore(rr, q);
      if r.rtype == q.qtype {
        RuleOfRecord(r, q, s, f);
      }
      var fake := if r.rtype == q.qtype then s.ipMap[AddressOf(r)].fake else 0;
      assert Rewrite(rr, q, s.ipMap) == Rewrite(init, q, s.ipMap) + RewriteOne(r, q, fake);
      MapBackOneMore(Rewrite(init, q, s.ipMap), r, q, fake, s.chains[f]);
    }
  }

  lemma RewrittenReadsAs(rr: seq<Record>, q: Query, s: State, f: Family)
    requires Inv(s) && f in s.pools && Covered(rr, q, s.ipMap)
    requires (q.qtype == A && f == V4) || (q.qtype == AAAA && f == V6)
    ensures ReadsAs(Rewrite(rr, q, s.ipMap), rr, q, s.chains[f])
  {
    RewriteMapsBack(rr, q, s, f);
    ClampedAllExact(rr, q);
  }

  lemma ClampedOneMore(rr: seq<Record>, q: Query)
    requires rr != []
    ensures ClampedAll(rr, q) == ClampedAll(rr[..|rr| - 1], q) + [Clamped(rr[|rr| - 1], q)]
  {
  }
}
