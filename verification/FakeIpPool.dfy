/**
 The finite pool of fake addresses behind the DNS proxy (setup/root/antizapret/proxy.py, class FakeIPPool).
 Addresses are numbers; an address is a host of a network when it is neither its first nor its last address.
 */
module FakeIpPool {
  import opened Options

  /** A network: its first address and its number of addresses. */
  datatype Network = Network(base: nat, size: nat)

  ghost predicate IsHost(net: Network, address: nat) {
    net.base < address < net.base + net.size - 1
  }

  ghost function Hosts(net: Network): (hosts: set<nat>)
    ensures forall a: nat :: a in hosts <==> IsHost(net, a)
  {
    set a: nat | a < net.base + net.size && IsHost(net, a)
  }

  /** The value of a pool: the addresses handed out, those given back, and the scan position. */
  datatype Pool = Pool(net: Network, used: set<nat>, released: set<nat>, next: nat)

  /** What every operation keeps. The last clause is completeness: no host below the scan position is lost. */
  ghost predicate PoolInv(p: Pool) {
    && (forall a: nat :: a in p.used ==> IsHost(p.net, a))
    && (forall a: nat :: a in p.released ==> IsHost(p.net, a))
    && p.used !! p.released
    && 1 <= p.next
    && (p.next == 1 || p.next <= p.net.size - 1)
    && (forall a: nat :: p.net.base < a < p.net.base + p.next ==> a in p.used || a in p.released)
  }

  ghost function Empty(net: Network): (p: Pool)
    ensures PoolInv(p)
  {
    Pool(net, {}, {}, 1)
  }

  /** Taking one address out of the pool, or nothing exactly when every host address is in use. */
  ghost predicate Allocates(p: Pool, r: Option<nat>, p': Pool) {
    && PoolInv(p')
    && p'.net == p.net
    && (r.None? <==> p.used == Hosts(p.net))
    && p.next <= p'.next
    && (p.released != {} ==> p'.next == p.next)
    && match r
       case None => p'.used == p.used && p'.released == p.released
       case Some(a) =>
         && IsHost(p.net, a)
         && a !in p.used
         && p'.used == p.used + {a}
         && p'.released == p.released - {a}
         && (p.released != {} ==> a in p.released)
  }

  ghost function Claimed(p: Pool, address: nat): Pool {
    p.(used := p.used + {address}, released := p.released - {address})
  }

  ghost function Released(p: Pool, address: nat): Pool {
    if address in p.used then p.(used := p.used - {address}, released := p.released + {address}) else p
  }

  /** Releasing what was just allocated changes neither the addresses in use nor the pool's soundness. */
  lemma ReleaseUndoesAllocate(p: Pool, a: nat, p': Pool)
    requires Allocates(p, Some(a), p')
    ensures PoolInv(Released(p', a))
    ensures Released(p', a).used == p.used
    ensures Released(p', a).released == p.released + {a}
  {
    var q := Released(p', a);
    forall b: nat | q.net.base < b < q.net.base + q.next
      ensures b in q.used || b in q.released
    {
      assert b in p'.used || b in p'.released;
    }
  }

  /** An exhausted pool has nothing to give back, so "no address left" is never a waste. */
  lemma ExhaustedHasNoneReleased(p: Pool)
    requires PoolInv(p)
    requires p.used == Hosts(p.net)
    ensures p.released == {}
  {
    assert forall a: nat :: a in p.released ==> a in p.used;
  }

  class FakeIPPool {
    const net: Network
    var used: set<nat>
    var released: set<nat>
    var nextOffset: nat
    // How often the scan has advanced over the whole life of the pool.
    ghost var scans: nat

    ghost function View(): Pool
      reads this
    {
      Pool(net, used, released, nextOffset)
    }

    ghost predicate Valid()
      reads this
    {
      PoolInv(View()) && scans == nextOffset - 1
    }

    constructor (net: Network)
      ensures Valid() && this.net == net && View() == Empty(net) && scans == 0
    {
      this.net := net;
      used, released, nextOffset, scans := {}, {}, 1, 0;
    }

    method Claim(address: nat) returns (ok: bool)
      requires Valid()
      modifies this
      ensures Valid()
      ensures ok == (IsHost(net, address) && address !in old(used))
      ensures View() == if ok then Claimed(old(View()), address) else old(View())
    {
      var offset := address - net.base;
      if offset <= 0 || offset >= net.size - 1 {
        return false;
      }
      if address in used {
        return false;
      }
      used := used + {address};
      released := released - {address};
      return true;
    }

    method Allocate() returns (r: Option<nat>)
      requires Valid()
      modifies this
      ensures Valid()
      ensures Allocates(old(View()), r, View())
      // The bound on the scan holds over the whole life of the pool.
      ensures scans <= if net.size >= 2 then net.size - 2 else 0
    {
      if released != {} {
        var a :| a in released;
        released := released - {a};
        used := used + {a};
        assert a !in old(used);
        return Some(a);
      }
      var maximum := net.size - 1;
      while nextOffset < maximum
        invariant Valid() && old(nextOffset) <= nextOffset
        invariant used == old(used) && released == {}
        decreases maximum - nextOffset
      {
        var a := net.base + nextOffset;
        var taken := a in used;
        used := used + {a};
        nextOffset := nextOffset + 1;
        scans := scans + 1;
        if !taken {
          return Some(a);
        }
        assert used == old(used);
      }
      return None;
    }

    method Release(address: nat)
      requires Valid()
      modifies this
      ensures Valid()
      ensures View() == Released(old(View()), address)
    {
      if address in used {
        used := used - {address};
        released := released + {address};
        assert address in released;
      }
    }
  }
}
