/** What each handler answers and does, in every state, in the terms of its callers and of the kernel: reply codes,
    16-bit ports, protocol numbers, address bytes. */
module LbOutcomes {
  import opened NetAddr
  import opened CidrBlocks
  import opened Ipam
  import opened IpvsCodec
  import opened LbState
  import opened LbProofs

  // ---------- what the kernel is given ----------

  /** net.ParseIP answers nil or 16 bytes. */
  ghost predicate Parses(cfg: Config) {
    forall s :: cfg.parse(s) == [] || |cfg.parse(s)| == 16
  }

  /** AF_INET (2) with the last four bytes for an IPv4-mapped address, else AF_INET6 (10) with all of them. */
  ghost predicate Spells(ip: Bytes, family: int, raw: Bytes) {
    if |ip| == 16 && ip[..12] == [0, 0, 0, 0, 0, 0, 0, 0, 0, 0, 255, 255] then family == 2 && raw == ip[12..]
    else family == 10 && raw == ip
  }

  /** The service of an address, a port and a protocol: UDP is 17, everything else TCP, which is 6. */
  ghost predicate IsServiceOf(cfg: Config, k: SvcKey, ipAddr: string, port: int, protocol: int) {
    && Spells(cfg.parse(ipAddr), k.family, k.address)
    && k.port == port % 65536 && k.protocol == (if protocol == 1 then 17 else 6)
  }

  ghost predicate IsBackendOf(cfg: Config, d: DstKey, t: Target) {
    Spells(cfg.parse(t.dstIP), d.family, d.address) && d.port == t.dstPort % 65536
  }

  /** The pair forwards the load balancer's address and port to the target. */
  ghost predicate Forwards(cfg: Config, x: Pair, ipAddr: string, port: int, t: Target) {
    IsServiceOf(cfg, x.svc, ipAddr, port, t.protocol) && IsBackendOf(cfg, x.dst, t)
  }

  ghost predicate Stored(s: State, name: string, port: int, t: Target) {
    name in s.store && port in s.store[name].targets && t in s.store[name].targets[port]
  }

  lemma ServiceIff(cfg: Config, k: SvcKey, ipAddr: string, port: int, protocol: int)
    requires Parses(cfg)
    ensures IsServiceOf(cfg, k, ipAddr, port, protocol)
            <==> k == KeyOfService(ToIpvsService(cfg, ipAddr, port, protocol))
  {}

  lemma BackendIff(cfg: Config, d: DstKey, t: Target)
    requires Parses(cfg)
    ensures IsBackendOf(cfg, d, t) <==> d == KeyOfDestination(ToIpvsDestination(cfg, t))
  {}

  /** Exactly one pair forwards a stored target. */
  lemma ForwardsIff(cfg: Config, x: Pair, name: string, ipAddr: string, port: int, t: Target)
    requires Parses(cfg)
    ensures Forwards(cfg, x, ipAddr, port, t) <==> x == PairOf(cfg, Entry(name, ipAddr, port, t))
  {
    ServiceIff(cfg, x.svc, ipAddr, port, t.protocol);
    BackendIff(cfg, x.dst, t);
  }

  lemma StoredIff(s: State, name: string, port: int, t: Target)
    ensures Stored(s, name, port, t)
            <==> name in s.store && Entry(name, s.store[name].ipAddr, port, t) in Entries(s.store)
  {
    if Stored(s, name, port, t) {
      StoredEntry(s.store, name, port, t);
    }
  }

  ghost predicate ForwardsStored(cfg: Config, s: State, x: Pair) {
    exists n, p, t :: Stored(s, n, p, t) && Forwards(cfg, x, s.store[n].ipAddr, p, t)
  }

  lemma ImageIff(cfg: Config, s: State, x: Pair)
    requires Parses(cfg)
    ensures x in Image(cfg, Entries(s.store)) <==> ForwardsStored(cfg, s, x)
  {
    if x in Image(cfg, Entries(s.store)) {
      var e :| e in Entries(s.store) && PairOf(cfg, e) == x;
      EntryIsStored(s.store, e);
      ForwardsIff(cfg, x, e.name, e.ipAddr, e.port, e.target);
      assert Stored(s, e.name, e.port, e.target);
    }
    if ForwardsStored(cfg, s, x) {
      var n, p, t :| Stored(s, n, p, t) && Forwards(cfg, x, s.store[n].ipAddr, p, t);
      StoredIff(s, n, p, t);
      ForwardsIff(cfg, x, n, s.store[n].ipAddr, p, t);
    }
  }

  /** Agreement in the kernel's terms: its destinations are the pairs that forward a stored target, no more and no
      less, and two stored targets never share one. */
  lemma AgreedForwards(cfg: Config, s: State)
    requires Parses(cfg) && Agreed(cfg, s)
    ensures forall x :: x in Pairs(s.kernel) <==> ForwardsStored(cfg, s, x)
    ensures forall x, m, n, p, q, t, u ::
              Stored(s, m, p, t) && Stored(s, n, q, u)
              && Forwards(cfg, x, s.store[m].ipAddr, p, t) && Forwards(cfg, x, s.store[n].ipAddr, q, u)
              ==> m == n && p == q && t == u
  {
    forall x ensures x in Pairs(s.kernel) <==> ForwardsStored(cfg, s, x) { ImageIff(cfg, s, x); }
    forall x, m, n, p, q, t, u | Stored(s, m, p, t) && Stored(s, n, q, u)
                                 && Forwards(cfg, x, s.store[m].ipAddr, p, t)
                                 && Forwards(cfg, x, s.store[n].ipAddr, q, u)
      ensures m == n && p == q && t == u
    {
      ForwardsIff(cfg, x, m, s.store[m].ipAddr, p, t);
      ForwardsIff(cfg, x, n, s.store[n].ipAddr, q, u);
      StoredIff(s, m, p, t);
      StoredIff(s, n, q, u);
    }
  }

  // ---------- the handlers ----------

  /** A name that is not stored is code 1 and changes nothing. */
  lemma UnknownName(cfg: Config, s: State, name: string, port: int, t: Target, f: Faults)
    requires name !in s.store
    ensures AddTargetStep(cfg, s, name, port, t, f) == (s, Code(1))
    ensures DelTargetStep(cfg, s, name, port, t) == (s, Code(1))
    ensures DeleteStep(cfg, s, name) == (s, Code(1))
  {}

  /** The kernel refuses the missing service of x. */
  ghost predicate ServiceRefused(s: State, x: Pair, f: Faults) {
    x.svc !in s.kernel && f.service
  }

  /** AddTarget: 32 for a stored target, an RPC error when the service is refused, 8 when the kernel refuses the
      destination or has it already, and otherwise 0: then the target ends its port's list and x is the one new
      destination. */
  lemma AddTargetAnswers(cfg: Config, s: State, name: string, port: int, t: Target, f: Faults, x: Pair)
    requires Parses(cfg) && name in s.store && Forwards(cfg, x, s.store[name].ipAddr, port, t)
    ensures var (s', reply) := AddTargetStep(cfg, s, name, port, t, f);
            reply == if Stored(s, name, port, t) then Code(32)
                     else if ServiceRefused(s, x, f) then RpcError
                     else if f.destination || x in Pairs(s.kernel) then Code(8)
                     else Code(0)
    ensures var (s', reply) := AddTargetStep(cfg, s, name, port, t, f);
            var lb := s.store[name];
            var list := if port in lb.targets then lb.targets[port] else [];
            && s'.link == s.link
            && Pairs(s'.kernel) == (if reply == Code(0) then Pairs(s.kernel) + {x} else Pairs(s.kernel))
            && s'.store == if reply == Code(0)
                           then s.store[name := lb.(targets := lb.targets[port := list + [t]])] else s.store
  {
    var e := Entry(name, s.store[name].ipAddr, port, t);
    ForwardsIff(cfg, x, name, s.store[name].ipAddr, port, t);
    PairsMapTarget(s.kernel, SvcOf(cfg, e), DstOf(cfg, e), f);
  }

  /** The list without the target at its first position. */
  lemma {:induction false} WithoutFirst(list: seq<Target>, t: Target) returns (i: nat)
    requires t in list
    ensures i < |list| && list[i] == t && t !in list[..i] && Without(list, t) == list[..i] + list[i + 1..]
  {
    if list[0] == t {
      i := 0;
    } else {
      var j := WithoutFirst(list[1..], t);
      i := j + 1;
      assert list[..i] == [list[0]] + list[1..][..j];
    }
  }

  /** DelTarget: 64 for a target that is not stored, 16 when the kernel does not have its destination; neither changes
      anything. Otherwise 0: the target leaves its list, and the destination goes, with the whole service when it
      was the last of its list. */
  lemma DelTargetAnswers(cfg: Config, s: State, name: string, port: int, t: Target, x: Pair)
    requires Parses(cfg) && name in s.store && Forwards(cfg, x, s.store[name].ipAddr, port, t)
    ensures var (s', reply) := DelTargetStep(cfg, s, name, port, t);
            && reply == (if !Stored(s, name, port, t) then Code(64)
                         else if x !in Pairs(s.kernel) then Code(16)
                         else Code(0))
            && (reply != Code(0) ==> s' == s)
    ensures var (s', reply) := DelTargetStep(cfg, s, name, port, t);
            reply == Code(0) ==>
              var lb := s.store[name];
              var list := lb.targets[port];
              && s'.link == s.link
              && Pairs(s'.kernel) == (set y | y in Pairs(s.kernel) && y != x && (list == [t] ==> y.svc != x.svc))
              && s'.store == s.store[name := lb.(targets := if list == [t] then lb.targets - {port}
                                                            else lb.targets[port := Without(list, t)])]
  {
    var e := Entry(name, s.store[name].ipAddr, port, t);
    ForwardsIff(cfg, x, name, s.store[name].ipAddr, port, t);
    if Stored(s, name, port, t) && x in Pairs(s.kernel) {
      EmptyAfterDrop(s.store[name].targets[port], t);
      PairsDropDestination(s.kernel, SvcOf(cfg, e), DstOf(cfg, e));
      PairsRemoveServices(s.kernel[x.svc := s.kernel[x.svc] - {x.dst}], {x.svc});
    }
  }

  /** A service that Delete removes: that of some stored target of the load balancer. */
  ghost predicate ServesStored(cfg: Config, s: State, name: string, k: SvcKey) {
    exists p, t :: Stored(s, name, p, t) && IsServiceOf(cfg, k, s.store[name].ipAddr, p, t.protocol)
  }

  /** The services of all its targets are in the kernel. */
  ghost predicate AllServed(cfg: Config, s: State, name: string)
    requires name in s.store
  {
    forall k, p, t :: Stored(s, name, p, t) && IsServiceOf(cfg, k, s.store[name].ipAddr, p, t.protocol)
                      ==> k in s.kernel
  }

  /** Two targets of the load balancer share a service only when they have one port and one protocol. */
  ghost predicate NoSharedService(s: State, name: string) {
    forall p, t, q, u :: Stored(s, name, p, t) && Stored(s, name, q, u)
                         && p % 65536 == q % 65536 && (t.protocol == 1 <==> u.protocol == 1)
                         ==> p == q && t.protocol == u.protocol
  }

  lemma RemovedServicesIff(cfg: Config, s: State, name: string, k: SvcKey)
    requires Parses(cfg) && name in s.store
    ensures k in ComboKeys(cfg, s.store[name], Combos(s.store[name])) <==> ServesStored(cfg, s, name, k)
  {
    var lb := s.store[name];
    if k in ComboKeys(cfg, lb, Combos(lb)) {
      var c :| c in Combos(lb) && ComboKey(cfg, lb, c) == k;
      var p, t :| p in lb.targets && t in lb.targets[p] && c == (p, t.protocol);
      ServiceIff(cfg, k, lb.ipAddr, p, t.protocol);
      assert Stored(s, name, p, t);
    }
    if ServesStored(cfg, s, name, k) {
      var p, t :| Stored(s, name, p, t) && IsServiceOf(cfg, k, lb.ipAddr, p, t.protocol);
      ServiceIff(cfg, k, lb.ipAddr, p, t.protocol);
      assert (p, t.protocol) in Combos(lb) && ComboKey(cfg, lb, (p, t.protocol)) == k;
    }
  }

  lemma SameComboKeyIff(cfg: Config, lb: LbInfo, c: (int, int), d: (int, int))
    ensures ComboKey(cfg, lb, c) == ComboKey(cfg, lb, d)
            <==> c.0 % 65536 == d.0 % 65536 && (c.1 == 1 <==> d.1 == 1)
  {}

  lemma AllServedIff(cfg: Config, s: State, name: string)
    requires Parses(cfg) && name in s.store
    ensures ComboKeys(cfg, s.store[name], Combos(s.store[name])) <= s.kernel.Keys <==> AllServed(cfg, s, name)
  {
    var keys := ComboKeys(cfg, s.store[name], Combos(s.store[name]));
    forall k ensures k in keys <==> ServesStored(cfg, s, name, k) { RemovedServicesIff(cfg, s, name, k); }
    if !(keys <= s.kernel.Keys) {
      var k :| k in keys && k !in s.kernel;
      assert ServesStored(cfg, s, name, k);
    }
    forall k, p, t | keys <= s.kernel.Keys && Stored(s, name, p, t)
                     && IsServiceOf(cfg, k, s.store[name].ipAddr, p, t.protocol)
      ensures k in s.kernel
    {
      assert ServesStored(cfg, s, name, k);
    }
  }

  ghost predicate DistinctComboKeys(cfg: Config, lb: LbInfo) {
    forall c, d :: c in Combos(lb) && d in Combos(lb) && ComboKey(cfg, lb, c) == ComboKey(cfg, lb, d) ==> c == d
  }

  lemma NoSharedServiceIff(cfg: Config, s: State, name: string)
    requires name in s.store
    ensures DistinctComboKeys(cfg, s.store[name]) <==> NoSharedService(s, name)
  {
    var lb := s.store[name];
    if DistinctComboKeys(cfg, lb) {
      forall p, t, q, u | Stored(s, name, p, t) && Stored(s, name, q, u)
                          && p % 65536 == q % 65536 && (t.protocol == 1 <==> u.protocol == 1)
        ensures p == q && t.protocol == u.protocol
      {
        SameComboKeyIff(cfg, lb, (p, t.protocol), (q, u.protocol));
        assert (p, t.protocol) in Combos(lb) && (q, u.protocol) in Combos(lb);
      }
    }
    if NoSharedService(s, name) {
      forall c, d | c in Combos(lb) && d in Combos(lb) && ComboKey(cfg, lb, c) == ComboKey(cfg, lb, d)
        ensures c == d
      {
        SameComboKeyIff(cfg, lb, c, d);
        var p, t :| p in lb.targets && t in lb.targets[p] && c == (p, t.protocol);
        var q, u :| q in lb.targets && u in lb.targets[q] && d == (q, u.protocol);
        assert Stored(s, name, p, t) && Stored(s, name, q, u);
      }
    }
  }

  lemma ServicesOnceIff(cfg: Config, s: State, name: string)
    requires Parses(cfg) && name in s.store
    ensures EachServiceOnce(cfg, s.kernel, s.store[name], Combos(s.store[name]))
            <==> AllServed(cfg, s, name) && NoSharedService(s, name)
  {
    AllServedIff(cfg, s, name);
    NoSharedServiceIff(cfg, s, name);
    assert EachServiceOnce(cfg, s.kernel, s.store[name], Combos(s.store[name]))
           <==> ComboKeys(cfg, s.store[name], Combos(s.store[name])) <= s.kernel.Keys
                && DistinctComboKeys(cfg, s.store[name]);
  }

  /** Delete of a stored load balancer: 2 when some service was not there to remove, or not a second time, plus 4 when
      the alias was not there. In every case the entry, the alias and the services of its targets are gone after
      it, and nothing else is. */
  lemma DeleteAnswers(cfg: Config, s: State, name: string)
    requires Parses(cfg) && name in s.store
    ensures var (s', reply) := DeleteStep(cfg, s, name);
            var alias := LinkAddr(cfg.parse(s.store[name].ipAddr), cfg.cidr.bits);
            && reply == Code((if AllServed(cfg, s, name) && NoSharedService(s, name) then 0 else 2)
                             + (if alias in s.link then 0 else 4))
            && s'.store == s.store - {name} && s'.link == s.link - {alias}
            && (forall k :: k in s'.kernel <==> k in s.kernel && !ServesStored(cfg, s, name, k))
            && (forall k :: k in s'.kernel ==> s'.kernel[k] == s.kernel[k])
  {
    ServicesOnceIff(cfg, s, name);
    forall k ensures k in DeleteStep(cfg, s, name).0.kernel <==> k in s.kernel && !ServesStored(cfg, s, name, k) {
      RemovedServicesIff(cfg, s, name, k);
    }
  }

  /** Create with a requested address: refused for a taken name, an address outside the CIDR, or a refused new alias;
      otherwise an entry without targets, and its alias with the mask of the CIDR. */
  lemma CreateAnswers(cfg: Config, s: State, name: string, requested: string, f: Faults)
    requires ValidRange(cfg.range) && requested != ""
    ensures var (s', r) := CreateStep(cfg, s, name, requested, f);
            var ip := cfg.parse(requested);
            var alias := LinkAddr(ip, cfg.cidr.bits);
            if name in s.store || !InCidr(cfg.cidr, ip) || (f.alias && alias !in s.link) then s' == s && r == None
            else
              && r == Some(LbInfo(name, requested, map[]))
              && s' == State(s.store[name := r.value], s.link + {alias}, s.kernel)
  {}

  ghost predicate OnLink(link: set<LinkAddr>, ip: Bytes) {
    exists a :: a in link && a.ip == ip
  }

  lemma OnLinkIff(link: set<LinkAddr>, ip: Bytes)
    requires ValidLink(link) && |ip| == 16
    ensures OnLink(link, ip) <==> Value(ip) in LinkNumbers(link)
  {
    if Value(ip) in LinkNumbers(link) {
      var a :| a in link && Value(To16(a.ip)) == Value(ip);
      ValueInjective(a.ip, ip);
    }
  }

  /** Every address of lo..hi is on the link. */
  ghost predicate AllOnLink(link: set<LinkAddr>, lo: int, hi: int) {
    forall y: Bytes :: |y| == 16 && lo <= Value(y) <= hi ==> OnLink(link, y)
  }

  lemma AllOnLinkIff(link: set<LinkAddr>, lo: nat, hi: int)
    requires ValidLink(link) && hi <= MAX_IP
    ensures AllOnLink(link, lo, hi) <==> AllTaken(LinkNumbers(link), lo, hi)
  {
    if AllTaken(LinkNumbers(link), lo, hi) {
      forall y: Bytes | |y| == 16 && lo <= Value(y) <= hi
        ensures OnLink(link, y)
      {
        OnLinkIff(link, y);
      }
    }
    if AllOnLink(link, lo, hi) {
      forall w: nat | lo <= w <= hi
        ensures w in LinkNumbers(link)
      {
        ValueOfFromValue(w, 16);
        OnLinkIff(link, FromValue(w, 16));
      }
    }
  }

  /** The least address of lo..hi that is not on the link. With a full range there is none, or past an end in all
      ones the least address of all. */
  ghost predicate LeastOffLink(link: set<LinkAddr>, lo: nat, hi: nat, ip: Bytes) {
    && |ip| == 16 && !OnLink(link, ip)
    && (if AllOnLink(link, lo, hi) then hi == MAX_IP && AllOnLink(link, 0, Value(ip) - 1)
        else lo <= Value(ip) <= hi && AllOnLink(link, lo, Value(ip) - 1))
  }

  lemma LeastOffLinkIs(link: set<LinkAddr>, lo: nat, hi: nat, v: nat)
    requires ValidLink(link) && lo <= hi <= MAX_IP && Allocated(LinkNumbers(link), lo, hi) == Some(v)
    ensures LeastOffLink(link, lo, hi, FromValue(v, 16))
  {
    AllocatedIsLeast(LinkNumbers(link), lo, hi);
    ValueOfFromValue(v, 16);
    OnLinkIff(link, FromValue(v, 16));
    AllOnLinkIff(link, lo, hi);
    AllOnLinkIff(link, if AllTaken(LinkNumbers(link), lo, hi) then 0 else lo, v as int - 1);
  }

  /** The address Create takes when none is requested, over the link's addresses. */
  lemma AllocatesLeast(cfg: Config, link: set<LinkAddr>)
    requires ValidRange(cfg.range) && ValidLink(link) && Value(cfg.range.from) <= Value(cfg.range.to)
    ensures var lo, hi := Value(cfg.range.from), Value(cfg.range.to);
            match AllocateOnLink(cfg, link)
            case None => AllOnLink(link, lo, hi)
            case Some(ip) => LeastOffLink(link, lo, hi, ip)
  {
    var lo, hi := Value(cfg.range.from), Value(cfg.range.to);
    match Allocated(LinkNumbers(link), lo, hi)
    case None =>
      AllocatedIsLeast(LinkNumbers(link), lo, hi);
      AllOnLinkIff(link, lo, hi);
    case Some(v) => LeastOffLinkIs(link, lo, hi, v);
  }

  /** Create without a requested address stores that address in printed form and aliases it. */
  lemma CreateTakesAllocated(cfg: Config, s: State, name: string, f: Faults)
    requires ValidConfig(cfg) && ValidLink(s.link)
    ensures var (s', r) := CreateStep(cfg, s, name, "", f);
            if r.None? then s' == s
            else
              && AllocateOnLink(cfg, s.link).Some?
              && var ip := AllocateOnLink(cfg, s.link).value;
                 && r.value.name == name && cfg.parse(r.value.ipAddr) == ip && r.value.targets == map[]
                 && InCidr(cfg.cidr, ip)
                 && s' == State(s.store[name := r.value], s.link + {LinkAddr(ip, cfg.cidr.bits)}, s.kernel)
  {
    AllocatesLeast(cfg, s.link);
    assert forall ip :: |ip| == 16 ==> cfg.parse(cfg.show(ip)) == ip;
  }

  /** The iterator meets the load balancer before it meets a refused address, its own included. */
  ghost predicate Reached(cfg: Config, s: State, order: seq<string>, name: string)
    requires Yields(order, s.store)
  {
    exists i :: 0 <= i < |order| && order[i] == name
                && forall j :: 0 <= j <= i ==> InCidr(cfg.cidr, cfg.parse(s.store[order[j]].ipAddr))
  }

  lemma ReachedIff(cfg: Config, s: State, order: seq<string>, name: string)
    requires Yields(order, s.store)
    ensures Reached(cfg, s, order, name)
            <==> name in RestoredPart(cfg, s.store, BeforeRefusal(cfg, s.store, order))
  {
    if name in s.store && Accepted(cfg, s.store) {
      var i :| 0 <= i < |order| && order[i] == name;
      assert forall j :: 0 <= j <= i ==> order[j] in s.store;
    }
  }

  ghost predicate ForwardsReached(cfg: Config, s: State, order: seq<string>, x: Pair)
    requires Yields(order, s.store)
  {
    exists n, p, t :: Stored(s, n, p, t) && Reached(cfg, s, order, n) && Forwards(cfg, x, s.store[n].ipAddr, p, t)
  }

  lemma ImageOfReached(cfg: Config, s: State, order: seq<string>, x: Pair)
    requires Parses(cfg) && Yields(order, s.store)
    ensures x in Image(cfg, Entries(RestoredPart(cfg, s.store, BeforeRefusal(cfg, s.store, order))))
            <==> ForwardsReached(cfg, s, order, x)
  {
    var part := RestoredPart(cfg, s.store, BeforeRefusal(cfg, s.store, order));
    var r := s.(store := part);
    ImageIff(cfg, r, x);
    if ForwardsStored(cfg, r, x) {
      var n, p, t :| Stored(r, n, p, t) && Forwards(cfg, x, r.store[n].ipAddr, p, t);
      ReachedIff(cfg, s, order, n);
      assert Stored(s, n, p, t);
    }
    if ForwardsReached(cfg, s, order, x) {
      var n, p, t :| Stored(s, n, p, t) && Reached(cfg, s, order, n) && Forwards(cfg, x, s.store[n].ipAddr, p, t);
      ReachedIff(cfg, s, order, n);
      assert Stored(r, n, p, t);
    }
  }

  /** Restore, in every state and for every order: the targets of the load balancers that it reaches are forwarded and
      their addresses aliased, nothing else is added and nothing is lost. It succeeds exactly when the CIDR
      accepts every stored address, and then it reaches all. */
  lemma RestoreAnswers(cfg: Config, s: State, order: seq<string>)
    requires Parses(cfg) && Yields(order, s.store)
    ensures var (s', ok) := RestoreStep(cfg, s, BeforeRefusal(cfg, s.store, order));
            && (ok <==> forall n :: n in s.store ==> InCidr(cfg.cidr, cfg.parse(s.store[n].ipAddr)))
            && (ok ==> forall n :: n in s.store ==> Reached(cfg, s, order, n))
            && s'.store == s.store
            && s'.link == s.link + (set n | n in s.store && Reached(cfg, s, order, n) ::
                                      LinkAddr(cfg.parse(s.store[n].ipAddr), cfg.cidr.bits))
            && (forall x :: x in Pairs(s'.kernel) <==> x in Pairs(s.kernel) || ForwardsReached(cfg, s, order, x))
  {
    var part := RestoredPart(cfg, s.store, BeforeRefusal(cfg, s.store, order));
    PairsMerge(cfg, s.kernel, Entries(part));
    forall n
      ensures n in part <==> Reached(cfg, s, order, n)
    {
      ReachedIff(cfg, s, order, n);
    }
    forall x
      ensures x in Image(cfg, Entries(part)) <==> ForwardsReached(cfg, s, order, x)
    {
      ImageOfReached(cfg, s, order, x);
    }
  }
}
