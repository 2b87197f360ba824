/** The load balancer server of internal/loadbalancer/impl.go, with the store, the link and the kernel's IPVS
    table updated in place. Each handler is proved to take the matching step of LbState. */
module LbServer {
  import opened NetAddr
  import opened CidrBlocks
  import opened Ipam
  import opened IpvsCodec
  import opened LbState
  import opened LbProofs

  /** The external link's addresses. */
  class Link {
    var addrs: set<LinkAddr>

    constructor (addrs: set<LinkAddr>)
      ensures this.addrs == addrs
    {
      this.addrs := addrs;
    }

    method AddrList() returns (list: seq<LinkAddr>)
      ensures forall a :: a in list <==> a in addrs
    {
      list := [];
      var rest := addrs;
      while rest != {}
        invariant rest <= addrs
        invariant forall a :: a in list <==> a in addrs && a !in rest
      {
        var a :| a in rest;
        list, rest := list + [a], rest - {a};
      }
    }

    method AddrAdd(a: LinkAddr, refused: bool) returns (ok: bool)
      modifies this
      ensures ok <==> a !in old(addrs) && !refused
      ensures addrs == if ok then old(addrs) + {a} else old(addrs)
    {
      ok := a !in addrs && !refused;
      if ok {
        addrs := addrs + {a};
      }
    }

    method AddrDel(a: LinkAddr) returns (ok: bool)
      modifies this
      ensures ok <==> a in old(addrs)
      ensures addrs == old(addrs) - {a}
    {
      ok := a in addrs;
      addrs := addrs - {a};
    }
  }

  /** The kernel's IPVS table behind a netlink handle. `refused` is a failure of the kernel's own. */
  class IpvsHandle {
    var table: Kernel

    constructor (table: Kernel)
      ensures this.table == table
    {
      this.table := table;
    }

    method IsServicePresent(s: Service) returns (present: bool)
      ensures present <==> KeyOfService(s) in table
    {
      return KeyOfService(s) in table;
    }

    method NewService(s: Service, refused: bool) returns (ok: bool)
      modifies this
      ensures ok <==> KeyOfService(s) !in old(table) && !refused
      ensures table == if ok then old(table)[KeyOfService(s) := {}] else old(table)
    {
      ok := KeyOfService(s) !in table && !refused;
      if ok {
        table := table[KeyOfService(s) := {}];
      }
    }

    /** Removes a service with all its destinations. */
    method DelService(s: Service) returns (ok: bool)
      modifies this
      ensures ok <==> KeyOfService(s) in old(table)
      ensures table == old(table) - {KeyOfService(s)}
    {
      ok := KeyOfService(s) in table;
      table := table - {KeyOfService(s)};
    }

    method NewDestination(s: Service, d: Destination, refused: bool) returns (ok: bool)
      modifies this
      ensures var k, x := KeyOfService(s), KeyOfDestination(d);
              && (ok <==> k in old(table) && x !in old(table)[k] && !refused)
              && table == if ok then old(table)[k := old(table)[k] + {x}] else old(table)
    {
      var k, x := KeyOfService(s), KeyOfDestination(d);
      ok := k in table && x !in table[k] && !refused;
      if ok {
        table := table[k := table[k] + {x}];
      }
    }

    method DelDestination(s: Service, d: Destination) returns (ok: bool)
      modifies this
      ensures var k, x := KeyOfService(s), KeyOfDestination(d);
              && (ok <==> k in old(table) && x in old(table)[k])
              && table == if ok then old(table)[k := old(table)[k] - {x}] else old(table)
    {
      var k, x := KeyOfService(s), KeyOfDestination(d);
      ok := k in table && x in table[k];
      if ok {
        table := table[k := table[k] - {x}];
      }
    }
  }

  /** The next key of a Go map: any one of those left. */
  method Take<K(==)>(keys: set<K>) returns (k: K, rest: set<K>)
    requires keys != {}
    ensures k in keys && rest == keys - {k}
  {
    k :| k in keys;
    rest := keys - {k};
  }

  class Server {
    const cfg: Config
    const link: Link
    const ipvs: IpvsHandle
    var db: map<string, LbInfo>

    ghost function State(): State
      reads this, link, ipvs
    {
      LbState.State.State(db, link.addrs, ipvs.table)
    }

    constructor (cfg: Config, link: Link, ipvs: IpvsHandle, db: map<string, LbInfo>)
      ensures this.cfg == cfg && this.link == link && this.ipvs == ipvs && this.db == db
    {
      this.cfg, this.link, this.ipvs, this.db := cfg, link, ipvs, db;
    }

    method AddAddrAlias(ipAddr: string, refused: bool) returns (ok: bool)
      modifies link
      ensures var spec := AddAlias(cfg, old(link.addrs), ipAddr, refused);
              ok == spec.Some? && link.addrs == if ok then spec.value else old(link.addrs)
    {
      var externalIP := cfg.parse(ipAddr);
      if !InCidr(cfg.cidr, externalIP) {
        return false;
      }
      var requiredAddr := LinkAddr(externalIP, cfg.cidr.bits);
      var addrs := link.AddrList();
      var addrFound := false;
      for i := 0 to |addrs|
        invariant !addrFound && requiredAddr !in addrs[..i]
      {
        addrFound := requiredAddr == addrs[i];
        if addrFound {
          break;
        }
      }
      ok := true;
      if !addrFound {
        ok := link.AddrAdd(requiredAddr, refused);
      }
    }

    /** The allocator over the link's addresses. */
    method AllocateAddress() returns (r: Option<Bytes>)
      requires ValidRange(cfg.range) && ValidLink(link.addrs)
      requires ScanEnds(LinkNumbers(link.addrs), Value(cfg.range.to))
      ensures r == AllocateOnLink(cfg, link.addrs)
    {
      var addrs := link.AddrList();
      var ips := seq(|addrs|, i requires 0 <= i < |addrs| => addrs[i].ip);
      assert forall i :: 0 <= i < |ips| ==> addrs[i] in addrs;
      assert Taken(ips) == LinkNumbers(link.addrs) by {
        forall v | v in LinkNumbers(link.addrs)
          ensures v in Taken(ips)
        {
          var a :| a in link.addrs && Value(To16(a.ip)) == v;
          var i :| 0 <= i < |addrs| && addrs[i] == a;
          assert ips[i] == a.ip;
        }
      }
      r := Ipam.Allocate(cfg.range, ips);
      if r.Some? {
        ValueOfFromValue(Value(r.value), 16);
        ValueInjective(r.value, FromValue(Value(r.value), 16));
      }
    }

    method Create(name: string, requested: string, f: Faults) returns (r: Option<LbInfo>)
      requires ValidRange(cfg.range) && ValidLink(link.addrs)
      requires name !in db && requested == "" ==> ScanEnds(LinkNumbers(link.addrs), Value(cfg.range.to))
      modifies this, link
      ensures (State(), r) == CreateStep(cfg, old(State()), name, requested, f)
    {
      if name in db {
        return None;
      }
      var ipAddr := requested;
      if requested == "" {
        var nextIP := AllocateAddress();
        if nextIP.None? {
          return None;
        }
        ipAddr := cfg.show(nextIP.value);
      }
      var lbInfo := LbInfo(name, ipAddr, map[]);
      var ok := AddAddrAlias(ipAddr, f.alias);
      if !ok {
        return None;
      }
      db := db[name := lbInfo];
      return Some(lbInfo);
    }

    method MapTarget(lbInfo: LbInfo, srcPort: int, t: Target, f: Faults) returns (m: Mapping)
      modifies ipvs
      ensures var e := Entry(lbInfo.name, lbInfo.ipAddr, srcPort, t);
              (ipvs.table, m) == MapTargetStep(old(ipvs.table), SvcOf(cfg, e), DstOf(cfg, e), f)
    {
      var srv := ToIpvsService(cfg, lbInfo.ipAddr, srcPort, t.protocol);
      var present := ipvs.IsServicePresent(srv);
      if !present {
        var created := ipvs.NewService(srv, f.service);
        if !created {
          return Failed;
        }
      }
      var added := ipvs.NewDestination(srv, ToIpvsDestination(cfg, t), f.destination);
      return if added then Mapped else Refused;
    }

    method AddTarget(name: string, srcPort: int, t: Target, f: Faults) returns (reply: Reply)
      modifies this, ipvs
      ensures (State(), reply) == AddTargetStep(cfg, old(State()), name, srcPort, t, f)
    {
      if name !in db {
        return Code(ERR_NO_SUCH_LB);
      }
      var lbInfo := db[name];
      var list := TargetsAt(lbInfo, srcPort);
      for i := 0 to |list|
        invariant t !in list[..i]
      {
        if list[i] == t {
          return Code(ERR_TARGET_ALREADY_MAPPED);
        }
      }
      var m := MapTarget(lbInfo, srcPort, t, f);
      match m
      case Failed => return RpcError;
      case Refused => return Code(ERR_ADD_DESTINATION_FAILED);
      case Mapped =>
        db := db[name := lbInfo.(targets := lbInfo.targets[srcPort := list + [t]])];
        return Code(ERR_SUCCESS);
    }

    static lemma CutIsWithout(list: seq<Target>, t: Target, i: nat)
      requires i < |list| && list[i] == t && t !in list[..i]
      ensures list[..i] + list[i + 1..] == Without(list, t)
      decreases i
    {
      if i > 0 {
        assert list[0] in list[..i];
        assert list[1..][..i - 1] == list[..i][1..];
        CutIsWithout(list[1..], t, i - 1);
        assert list[..i] == [list[0]] + list[1..][..i - 1];
        assert list[i + 1..] == list[1..][i..];
      }
    }

    /** The index of a target in a port list, or -1. */
    static method FindTarget(list: seq<Target>, t: Target) returns (found: int)
      ensures found == -1 <==> t !in list
      ensures found != -1 ==> 0 <= found < |list| && list[found] == t && t !in list[..found]
    {
      found := -1;
      for i := 0 to |list|
        invariant found == -1 && t !in list[..i]
      {
        if list[i] == t {
          found := i;
          break;
        }
      }
    }

    method DelTarget(name: string, srcPort: int, t: Target) returns (reply: Reply)
      modifies this, ipvs
      ensures (State(), reply) == DelTargetStep(cfg, old(State()), name, srcPort, t)
    {
      if name !in db {
        return Code(ERR_NO_SUCH_LB);
      }
      var lbInfo := db[name];
      if srcPort !in lbInfo.targets {
        return Code(ERR_TARGET_NOT_MAPPED);
      }
      var list := lbInfo.targets[srcPort];
      var targetToRemove := FindTarget(list, t);
      if targetToRemove == -1 {
        return Code(ERR_TARGET_NOT_MAPPED);
      }
      var srv := ToIpvsService(cfg, lbInfo.ipAddr, srcPort, list[targetToRemove].protocol);
      var removed := ipvs.DelDestination(srv, ToIpvsDestination(cfg, t));
      if !removed {
        return Code(ERR_DEL_DESTINATION_FAILED);
      }
      CutIsWithout(list, t, targetToRemove);
      list := list[..targetToRemove] + list[targetToRemove + 1..];
      if |list| == 0 {
        var dropped := ipvs.DelService(srv);
        if !dropped {
          return Code(ERR_DEL_DESTINATION_FAILED);
        }
        lbInfo := lbInfo.(targets := lbInfo.targets - {srcPort});
      } else {
        lbInfo := lbInfo.(targets := lbInfo.targets[srcPort := list]);
      }
      db := db[name := lbInfo];
      return Code(ERR_SUCCESS);
    }

    /** The services removed so far: those of the combinations in `done`, taken from table0. */
    ghost predicate Deleting(lb: LbInfo, table0: Kernel, done: set<(int, int)>, code: int)
      reads this, ipvs
    {
      && ipvs.table == table0 - ComboKeys(cfg, lb, done)
      && code == if EachServiceOnce(cfg, table0, lb, done) then 0 else ERR_NO_SUCH_SERVICE
    }

    lemma OneMoreCombo(lb: LbInfo, table0: Kernel, done: set<(int, int)>, c: (int, int))
      requires c !in done
      ensures ComboKeys(cfg, lb, done + {c}) == ComboKeys(cfg, lb, done) + {ComboKey(cfg, lb, c)}
      ensures EachServiceOnce(cfg, table0, lb, done + {c})
              <==> EachServiceOnce(cfg, table0, lb, done) && ComboKey(cfg, lb, c) in table0 - ComboKeys(cfg, lb, done)
    {}

    static method ProtocolsOf(list: seq<Target>) returns (protocols: set<int>)
      ensures protocols == set t | t in list :: t.protocol
    {
      protocols := {};
      for i := 0 to |list|
        invariant protocols == set t | t in list[..i] :: t.protocol
      {
        protocols := protocols + {list[i].protocol};
        assert list[..i + 1] == list[..i] + [list[i]];
      }
      assert list[..|list|] == list;
    }

    static ghost function PortCombos(port: int, list: seq<Target>): set<(int, int)> {
      set t | t in list :: (port, t.protocol)
    }

    /** The inner loop of Delete: the services of one port, protocol by protocol in any order. */
    method DeletePort(lb: LbInfo, port: int, code: int, ghost table0: Kernel, ghost done: set<(int, int)>)
      returns (code': int)
      requires port in lb.targets && Deleting(lb, table0, done, code)
      requires forall c :: c in done ==> c.0 != port
      modifies ipvs
      ensures Deleting(lb, table0, done + PortCombos(port, lb.targets[port]), code')
    {
      code' := code;
      var protocols := ProtocolsOf(lb.targets[port]);
      ghost var all, now := protocols, done;
      while protocols != {}
        invariant protocols <= all && Deleting(lb, table0, now, code')
        invariant forall c :: c in now <==> c in done || (c.0 == port && c.1 in all && c.1 !in protocols)
        decreases |protocols|
      {
        var p: int;
        p, protocols := Take(protocols);
        code' := DeleteCombo(lb, (port, p), code', table0, now);
        now := now + {(port, p)};
      }
      assert now == done + PortCombos(port, lb.targets[port]);
    }

    method DeleteCombo(lb: LbInfo, c: (int, int), code: int, ghost table0: Kernel, ghost done: set<(int, int)>)
      returns (code': int)
      requires c !in done && Deleting(lb, table0, done, code)
      modifies ipvs
      ensures Deleting(lb, table0, done + {c}, code')
    {
      OneMoreCombo(lb, table0, done, c);
      var ok := ipvs.DelService(ToIpvsService(cfg, lb.ipAddr, c.0, c.1));
      code' := if ok then code else ERR_NO_SUCH_SERVICE;
    }

    method Delete(name: string) returns (reply: Reply)
      modifies this, link, ipvs
      ensures (State(), reply) == DeleteStep(cfg, old(State()), name)
    {
      if name !in db {
        return Code(ERR_NO_SUCH_LB);
      }
      var lbInfo := db[name];
      var code := 0;
      var ports := lbInfo.targets.Keys;
      ghost var table0, done := ipvs.table, {};
      while ports != {}
        invariant ports <= lbInfo.targets.Keys && Deleting(lbInfo, table0, done, code)
        invariant forall c :: c in done <==> c in Combos(lbInfo) && c.0 !in ports
        modifies ipvs
        decreases |ports|
      {
        var port: int;
        port, ports := Take(ports);
        code := DeletePort(lbInfo, port, code, table0, done);
        done := done + PortCombos(port, lbInfo.targets[port]);
      }
      assert done == Combos(lbInfo);
      var aliasGone := link.AddrDel(LinkAddr(cfg.parse(lbInfo.ipAddr), cfg.cidr.bits));
      if !aliasGone {
        code := code + ERR_NO_SUCH_IP;
      }
      db := db - {name};
      return Code(code);
    }

    static ghost function ListEntries(name: string, lb: LbInfo, port: int, list: seq<Target>): set<Entry> {
      set t | t in list :: Entry(name, lb.ipAddr, port, t)
    }

    static lemma ListEntriesSnoc(name: string, lb: LbInfo, port: int, list: seq<Target>, i: nat)
      requires i < |list|
      ensures ListEntries(name, lb, port, list[..i + 1])
              == ListEntries(name, lb, port, list[..i]) + {Entry(name, lb.ipAddr, port, list[i])}
    {
      assert list[..i + 1] == list[..i] + [list[i]];
    }

    /** Restore's inner loop: one port list, where a refused duplicate is ignored. */
    method RestorePort(name: string, lb: LbInfo, port: int, list: seq<Target>, ghost kernel0: Kernel,
                       ghost done: set<Entry>)
      requires ipvs.table == Merge(cfg, kernel0, done)
      modifies ipvs
      ensures ipvs.table == Merge(cfg, kernel0, done + ListEntries(name, lb, port, list))
    {
      ghost var now := done;
      assert done + ListEntries(name, lb, port, list[..0]) == done;
      for i := 0 to |list|
        invariant now == done + ListEntries(name, lb, port, list[..i])
        invariant ipvs.table == Merge(cfg, kernel0, now)
      {
        ListEntriesSnoc(name, lb, port, list, i);
        RestoreTarget(name, lb, port, list[i], kernel0, now);
        now := now + {Entry(name, lb.ipAddr, port, list[i])};
      }
      assert list[..|list|] == list;
    }

    method RestoreTarget(name: string, lb: LbInfo, port: int, t: Target, ghost kernel0: Kernel, ghost done: set<Entry>)
      requires ipvs.table == Merge(cfg, kernel0, done)
      modifies ipvs
      ensures ipvs.table == Merge(cfg, kernel0, done + {Entry(name, lb.ipAddr, port, t)})
    {
      MergeOneMore(cfg, kernel0, done, Entry(name, lb.ipAddr, port, t));
      var m := MapTarget(lb, port, t, NO_FAULTS);
    }

    /** Restore maps one load balancer's targets, port by port in any order. */
    method RestoreTargets(name: string, lb: LbInfo, ghost kernel0: Kernel, ghost done: set<Entry>)
      requires ipvs.table == Merge(cfg, kernel0, done)
      modifies ipvs
      ensures ipvs.table == Merge(cfg, kernel0, done + EntriesOf(name, lb))
    {
      var ports := lb.targets.Keys;
      ghost var now := done;
      while ports != {}
        invariant ports <= lb.targets.Keys
        invariant forall e :: e in now <==> e in done || (e in EntriesOf(name, lb) && e.port !in ports)
        invariant ipvs.table == Merge(cfg, kernel0, now)
        decreases |ports|
      {
        var port: int;
        port, ports := Take(ports);
        RestorePort(name, lb, port, lb.targets[port], kernel0, now);
        now := now + ListEntries(name, lb, port, lb.targets[port]);
      }
      assert now == done + EntriesOf(name, lb);
    }

    /** One load balancer: its alias, then its targets. */
    method RestoreOne(name: string, ghost kernel0: Kernel, ghost link0: set<LinkAddr>, ghost done: map<string, LbInfo>)
      returns (ok: bool)
      requires name in db && name !in done
      requires ipvs.table == Merge(cfg, kernel0, Entries(done)) && link.addrs == link0 + Aliases(cfg, done)
      modifies link, ipvs
      ensures ok <==> InCidr(cfg.cidr, cfg.parse(db[name].ipAddr))
      ensures ok ==> ipvs.table == Merge(cfg, kernel0, Entries(done[name := db[name]]))
                     && link.addrs == link0 + Aliases(cfg, done[name := db[name]])
      ensures !ok ==> ipvs.table == old(ipvs.table) && link.addrs == old(link.addrs)
    {
      var currLB := db[name];
      ok := AddAddrAlias(currLB.ipAddr, false);
      if !ok {
        return;
      }
      RestoreTargets(name, currLB, kernel0, Entries(done));
      EntriesPut(done, name, currLB);
      NoEntriesYet(done, name);
      AliasesPut(cfg, done, name, currLB);
    }

    static lemma AliasesPut(cfg: Config, store: map<string, LbInfo>, name: string, lb: LbInfo)
      requires name !in store
      ensures Aliases(cfg, store[name := lb]) == Aliases(cfg, store) + {AliasOf(cfg, lb.ipAddr)}
    {
      var after := store[name := lb];
      forall x
        ensures x in Aliases(cfg, after) <==> x in Aliases(cfg, store) || x == AliasOf(cfg, lb.ipAddr)
      {
        assert name in after;
        if x in Aliases(cfg, store) {
          var n :| n in store && AliasOf(cfg, store[n].ipAddr) == x;
          assert n in after && after[n] == store[n];
        }
      }
    }

    /** The first i load balancers that the iterator yields, all of them accepted. */
    static ghost function FirstOnes(db: map<string, LbInfo>, order: seq<string>, i: nat): map<string, LbInfo>
      requires Yields(order, db) && i <= |order|
    {
      map n | n in order[..i] :: db[n]
    }

    static ghost predicate AcceptedUpTo(cfg: Config, db: map<string, LbInfo>, order: seq<string>, i: nat)
      requires Yields(order, db) && i <= |order|
    {
      forall j :: 0 <= j < i ==> InCidr(cfg.cidr, cfg.parse(db[order[j]].ipAddr))
    }

    static lemma OneMoreYielded(db: map<string, LbInfo>, order: seq<string>, i: nat)
      requires Yields(order, db) && i < |order|
      ensures order[i] !in FirstOnes(db, order, i)
      ensures FirstOnes(db, order, i + 1) == FirstOnes(db, order, i)[order[i] := db[order[i]]]
    {
      assert order[..i + 1] == order[..i] + [order[i]];
    }

    static lemma StopsBefore(cfg: Config, db: map<string, LbInfo>, order: seq<string>, i: nat)
      requires Yields(order, db) && i <= |order| && AcceptedUpTo(cfg, db, order, i)
      requires i < |order| ==> !InCidr(cfg.cidr, cfg.parse(db[order[i]].ipAddr))
      ensures FirstOnes(db, order, i).Keys == BeforeRefusal(cfg, db, order)
      ensures Accepted(cfg, db) <==> i == |order|
      ensures RestoredPart(cfg, db, BeforeRefusal(cfg, db, order)) == FirstOnes(db, order, i)
    {}

    /** Where Restore's outer loop stands: the load balancers in `done` are back. */
    ghost predicate Restoring(kernel0: Kernel, link0: set<LinkAddr>, done: map<string, LbInfo>)
      reads link, ipvs
    {
      ipvs.table == Merge(cfg, kernel0, Entries(done)) && link.addrs == link0 + Aliases(cfg, done)
    }

    static lemma OneMoreAccepted(cfg: Config, db: map<string, LbInfo>, order: seq<string>, i: nat)
      requires Yields(order, db) && i < |order| && AcceptedUpTo(cfg, db, order, i)
      ensures AcceptedUpTo(cfg, db, order, i + 1) <==> InCidr(cfg.cidr, cfg.parse(db[order[i]].ipAddr))
    {}

    /** The i-th load balancer that the iterator yields. */
    method RestoreNext(order: seq<string>, i: nat, ghost kernel0: Kernel, ghost link0: set<LinkAddr>)
      returns (ok: bool)
      requires Yields(order, db) && i < |order| && Restoring(kernel0, link0, FirstOnes(db, order, i))
      modifies link, ipvs
      ensures ok <==> InCidr(cfg.cidr, cfg.parse(db[order[i]].ipAddr))
      ensures Restoring(kernel0, link0, FirstOnes(db, order, if ok then i + 1 else i))
    {
      OneMoreYielded(db, order, i);
      ok := RestoreOne(order[i], kernel0, link0, FirstOnes(db, order, i));
    }

    /** Restore's outer loop, in the order of the store's iterator; it stops at the i-th load balancer. */
    method RestoreAll(order: seq<string>, ghost kernel0: Kernel, ghost link0: set<LinkAddr>) returns (i: nat)
      requires Yields(order, db) && Restoring(kernel0, link0, FirstOnes(db, order, 0))
      modifies link, ipvs
      ensures i <= |order| && Restoring(kernel0, link0, FirstOnes(db, order, i))
      ensures AcceptedUpTo(cfg, db, order, i)
      ensures i < |order| ==> !InCidr(cfg.cidr, cfg.parse(db[order[i]].ipAddr))
    {
      i := 0;
      while i < |order|
        invariant i <= |order| && Restoring(kernel0, link0, FirstOnes(db, order, i))
        invariant AcceptedUpTo(cfg, db, order, i)
        modifies link, ipvs
      {
        OneMoreAccepted(cfg, db, order, i);
        var ok := RestoreNext(order, i, kernel0, link0);
        if !ok {
          return;
        }
        i := i + 1;
      }
    }

    /** Restore takes the Restore step for the order in which the store's iterator yields the load balancers: those
        before the first refused address are back, and it succeeds exactly when no address is refused. */
    method Restore(order: seq<string>) returns (ok: bool)
      requires Yields(order, db)
      modifies link, ipvs
      ensures (State(), ok) == RestoreStep(cfg, old(State()), BeforeRefusal(cfg, db, order))
      ensures ok <==> forall n :: n in db ==> InCidr(cfg.cidr, cfg.parse(db[n].ipAddr))
      ensures ok ==> State() == Restored(cfg, old(State()))
      ensures Pairs(old(ipvs.table)) <= Pairs(ipvs.table) <= Pairs(old(ipvs.table)) + Image(cfg, Entries(db))
    {
      ghost var kernel0, link0 := ipvs.table, link.addrs;
      MergeNothing(cfg, kernel0);
      NothingStored(cfg);
      assert FirstOnes(db, order, 0) == map[];
      var i := RestoreAll(order, kernel0, link0);
      StopsBefore(cfg, db, order, i);
      PartialRestore(cfg, kernel0, db, FirstOnes(db, order, i));
      ok := i == |order|;
    }

    static lemma NothingStored(cfg: Config)
      ensures Entries(map[]) == {} && Aliases(cfg, map[]) == {}
    {}

    static lemma PartialRestore(cfg: Config, kernel0: Kernel, db: map<string, LbInfo>, done: map<string, LbInfo>)
      requires forall n :: n in done ==> n in db && done[n] == db[n]
      ensures var now := Pairs(Merge(cfg, kernel0, Entries(done)));
              Pairs(kernel0) <= now <= Pairs(kernel0) + Image(cfg, Entries(db))
    {
      PairsMerge(cfg, kernel0, Entries(done));
      PartOfStore(db, done);
    }

    static lemma NoEntriesYet(store: map<string, LbInfo>, name: string)
      requires name !in store
      ensures (set e | e in Entries(store) && e.name != name) == Entries(store)
    {}

    static lemma PartOfStore(db: map<string, LbInfo>, part: map<string, LbInfo>)
      requires forall n :: n in part ==> n in db && part[n] == db[n]
      ensures Entries(part) <= Entries(db)
    {}
  }
}
