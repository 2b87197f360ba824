/** The cloud provider side of internal/proxmox/loadbalancer.go, calling the load balancer server. */
module Provider {
  import opened NetAddr
  import opened Ipam
  import opened LbState
  import opened LbProofs
  import opened LbRuns
  import opened LbOutcomes
  import opened LbServer
  import opened Reconcile

  function BackendOf(cfg: Config, k: TargetKey): DstKey {
    KeyOfDestination(ToIpvsDestination(cfg, ToTarget(k)))
  }

  /** Source ports are 16-bit, protocols declared, and two keys with the same backend in the kernel's eyes
      have the same address text and port. */
  ghost predicate Plain(cfg: Config, keys: set<TargetKey>) {
    && (forall k :: k in keys ==> PortInRange(k.srcPort) && DeclaredProtocol(k.protocol))
    && (forall a, b :: a in keys && b in keys && BackendOf(cfg, a) == BackendOf(cfg, b)
                       ==> a.ip == b.ip && a.dstPort == b.dstPort)
  }

  /** Only the targets of one load balancer differ. */
  ghost predicate OnlyTargetsOf(name: string, s: State, s': State) {
    && s'.link == s.link && s'.store.Keys == s.store.Keys
    && (forall n :: n in s.store && n != name ==> s'.store[n] == s.store[n])
    && (name in s.store ==> s'.store[name].ipAddr == s.store[name].ipAddr)
  }

  lemma KeyIsStored(lb: LbInfo, k: TargetKey)
    ensures k in KeysOf(lb) <==> ToTarget(k) in TargetsAt(lb, k.srcPort)
  {}

  lemma KeysAfterAdd(lb: LbInfo, k: TargetKey)
    ensures KeysOf(lb.(targets := lb.targets[k.srcPort := TargetsAt(lb, k.srcPort) + [ToTarget(k)]]))
            == KeysOf(lb) + {k}
  {
    var lb' := lb.(targets := lb.targets[k.srcPort := TargetsAt(lb, k.srcPort) + [ToTarget(k)]]);
    forall x
      ensures x in KeysOf(lb') <==> x in KeysOf(lb) || x == k
    {
      KeyIsStored(lb, x);
      KeyIsStored(lb', x);
    }
  }

  lemma KeysAfterDrop(lb: LbInfo, k: TargetKey)
    requires WellShaped(lb) && k in KeysOf(lb)
    ensures k.srcPort in lb.targets && KeysOf(DropTarget(lb, k.srcPort, ToTarget(k))) == KeysOf(lb) - {k}
  {
    KeyIsStored(lb, k);
    var lb' := DropTarget(lb, k.srcPort, ToTarget(k));
    WithoutMembers(lb.targets[k.srcPort], ToTarget(k));
    forall x
      ensures x in KeysOf(lb') <==> x in KeysOf(lb) && x != k
    {
      KeyIsStored(lb, x);
      KeyIsStored(lb', x);
    }
  }

  lemma PairHasEntry(cfg: Config, s: State, x: Pair) returns (a: Entry)
    requires Agreed(cfg, s) && x in Pairs(s.kernel)
    ensures a in Entries(s.store) && PairOf(cfg, a) == x
  {
    assert x in Image(cfg, Entries(s.store));
    a :| a in Entries(s.store) && PairOf(cfg, a) == x;
  }

  /** A stored target in the service of a plain key lives on the same load balancer, port and protocol. */
  lemma ServiceHome(cfg: Config, s: State, name: string, k: TargetKey, a: Entry)
    requires ValidConfig(cfg) && Homes(cfg, s) && name in s.store && a in Entries(s.store)
    requires PortInRange(k.srcPort) && DeclaredProtocol(k.protocol)
    requires SvcOf(cfg, a) == SvcOf(cfg, Entry(name, s.store[name].ipAddr, k.srcPort, ToTarget(k)))
    ensures a.name == name && a.port == k.srcPort && a.target.protocol == k.protocol
    ensures NewTargetKey(a.target, a.port) in KeysOf(s.store[name])
  {
    SvcKeyDetermines(cfg, a, Entry(name, s.store[name].ipAddr, k.srcPort, ToTarget(k)));
    EntryIsKey(s.store, a);
    assert a.name == name;
    assert Housed(cfg, s, s.store[name]);
    SamePortInRange(a.port, k.srcPort);
  }

  lemma EntryIsKey(store: map<string, LbInfo>, a: Entry)
    requires a in Entries(store)
    ensures a.name in store && a.ipAddr == store[a.name].ipAddr
    ensures a.port in store[a.name].targets && a.target in store[a.name].targets[a.port]
    ensures NewTargetKey(a.target, a.port) in KeysOf(store[a.name])
  {}

  /** The kernel does not hold the pair of a plain key that is not stored. */
  lemma NewKeyIsUnmapped(cfg: Config, s: State, name: string, k: TargetKey)
    requires ValidConfig(cfg) && Owned(cfg, s) && name in s.store
    requires Plain(cfg, KeysOf(s.store[name]) + {k}) && k !in KeysOf(s.store[name])
    ensures PairOf(cfg, Entry(name, s.store[name].ipAddr, k.srcPort, ToTarget(k))) !in Pairs(s.kernel)
  {
    var e := Entry(name, s.store[name].ipAddr, k.srcPort, ToTarget(k));
    if PairOf(cfg, e) in Pairs(s.kernel) {
      var a := PairHasEntry(cfg, s, PairOf(cfg, e));
      PlainAt(cfg, KeysOf(s.store[name]) + {k}, k);
      ServiceHome(cfg, s, name, k, a);
      SameBackend(cfg, KeysOf(s.store[name]) + {k}, k, a);
    }
  }

  lemma PlainAt(cfg: Config, keys: set<TargetKey>, k: TargetKey)
    requires Plain(cfg, keys) && k in keys
    ensures PortInRange(k.srcPort) && DeclaredProtocol(k.protocol)
  {}

  lemma SameBackend(cfg: Config, keys: set<TargetKey>, k: TargetKey, a: Entry)
    requires Plain(cfg, keys) && k in keys && NewTargetKey(a.target, a.port) in keys
    requires a.port == k.srcPort && a.target.protocol == k.protocol
    requires DstOf(cfg, a) == BackendOf(cfg, k)
    ensures NewTargetKey(a.target, a.port) == k
  {}

  lemma AddKey(cfg: Config, s: State, name: string, k: TargetKey)
    requires ValidConfig(cfg) && Owned(cfg, s) && name in s.store && Plain(cfg, KeysOf(s.store[name]) + {k})
    ensures var s' := AddTargetStep(cfg, s, name, k.srcPort, ToTarget(k), NO_FAULTS).0;
            && Owned(cfg, s') && OnlyTargetsOf(name, s, s')
            && KeysOf(s'.store[name]) == KeysOf(s.store[name]) + {k}
  {
    PlainAt(cfg, KeysOf(s.store[name]) + {k}, k);
    StepKeepsOwned(cfg, s, AddTarget(name, k.srcPort, ToTarget(k), NO_FAULTS));
    if k in KeysOf(s.store[name]) {
      AddAgain(cfg, s, name, k);
      assert KeysOf(s.store[name]) + {k} == KeysOf(s.store[name]);
    } else {
      NewKeyIsUnmapped(cfg, s, name, k);
      AddNew(cfg, s, name, k);
    }
  }

  lemma AddNew(cfg: Config, s: State, name: string, k: TargetKey)
    requires name in s.store && k !in KeysOf(s.store[name])
    requires PairOf(cfg, Entry(name, s.store[name].ipAddr, k.srcPort, ToTarget(k))) !in Pairs(s.kernel)
    ensures var s' := AddTargetStep(cfg, s, name, k.srcPort, ToTarget(k), NO_FAULTS).0;
            OnlyTargetsOf(name, s, s') && KeysOf(s'.store[name]) == KeysOf(s.store[name]) + {k}
  {
    KeyIsStored(s.store[name], k);
    AddStores(cfg, s, name, k.srcPort, ToTarget(k));
    KeysAfterAdd(s.store[name], k);
  }

  /** A stored target is refused without any change. */
  lemma AddAgain(cfg: Config, s: State, name: string, k: TargetKey)
    requires name in s.store && k in KeysOf(s.store[name])
    ensures AddTargetStep(cfg, s, name, k.srcPort, ToTarget(k), NO_FAULTS) == (s, Code(ERR_TARGET_ALREADY_MAPPED))
  {}

  lemma DelKey(cfg: Config, s: State, name: string, k: TargetKey)
    requires ValidConfig(cfg) && Owned(cfg, s) && name in s.store
    ensures var s' := DelTargetStep(cfg, s, name, k.srcPort, ToTarget(k)).0;
            && Owned(cfg, s') && OnlyTargetsOf(name, s, s')
            && KeysOf(s'.store[name]) == KeysOf(s.store[name]) - {k}
  {
    StepKeepsOwned(cfg, s, DelTarget(name, k.srcPort, ToTarget(k)));
    DelStored(cfg, s, name, k);
  }

  lemma DelStored(cfg: Config, s: State, name: string, k: TargetKey)
    requires Agreed(cfg, s) && name in s.store
    ensures var s' := DelTargetStep(cfg, s, name, k.srcPort, ToTarget(k)).0;
            OnlyTargetsOf(name, s, s') && KeysOf(s'.store[name]) == KeysOf(s.store[name]) - {k}
  {
    KeyIsStored(s.store[name], k);
    if k in KeysOf(s.store[name]) {
      StoredTargetIsMapped(cfg, s, name, k.srcPort, ToTarget(k));
      DroppedStore(cfg, s, name, k.srcPort, ToTarget(k));
      KeysAfterDrop(s.store[name], k);
    }
  }

  // ---------- the stored targets in the terms of the service ----------

  /** A load balancer with exactly the desired keys: its targets are those that some port asks for. */
  lemma DesiredTargetsIff(lb: LbInfo, ports: seq<ServicePort>, nodes: seq<Node>)
    requires KeysOf(lb) == Desired(DesiredLists(ports, nodes))
    ensures forall p, t :: t in TargetsAt(lb, p) <==> AskedFor(ports, nodes, p, t)
  {
    forall p, t
      ensures t in TargetsAt(lb, p) <==> AskedFor(ports, nodes, p, t)
    {
      KeyIsStored(lb, NewTargetKey(t, p));
      DesiredIff(ports, nodes, NewTargetKey(t, p));
    }
  }

  /** What a reconciliation leaves behind, when ports and nodes are distinct and the i-th port is the first supported
      one: that port's targets, and those of the later ports that were not there before. */
  lemma ReconciledTargetsIff(lb: LbInfo, lb': LbInfo, ports: seq<ServicePort>, i: nat, nodes: seq<Node>)
    requires DistinctPorts(ports) && DistinctNodes(nodes) && i < |ports|
    requires forall j :: 0 <= j < i ==> ports[j].protocol != "TCP" && ports[j].protocol != "UDP"
    requires ports[i].protocol == "TCP" || ports[i].protocol == "UDP"
    requires KeysOf(lb') == FinalKeys(KeysOf(lb), DesiredLists(ports, nodes))
    ensures forall p, t ::
              t in TargetsAt(lb', p) <==>
              Asks(ports[i], nodes, p, t) || (AskedFor(ports[i + 1..], nodes, p, t) && t !in TargetsAt(lb, p))
  {
    var lists, later := DesiredLists(ports, nodes), DesiredLists(ports[i + 1..], nodes);
    DesiredDistinct(ports, nodes);
    DesiredListsSplit(ports, nodes, i);
    assert lists[0] == DesiredFor(ports[i], nodes) && lists[1..] == later;
    DistinctResult(KeysOf(lb), lists);
    forall p, t
      ensures t in TargetsAt(lb', p) <==>
              Asks(ports[i], nodes, p, t) || (AskedFor(ports[i + 1..], nodes, p, t) && t !in TargetsAt(lb, p))
    {
      var k := NewTargetKey(t, p);
      KeyIsStored(lb, k);
      KeyIsStored(lb', k);
      DesiredForIff(ports[i], nodes, k);
      DesiredIff(ports[i + 1..], nodes, k);
    }
  }

  /** Without a supported port nothing changes. */
  lemma UnsupportedPortsIdle(c: set<TargetKey>, ports: seq<ServicePort>, nodes: seq<Node>)
    requires forall j :: 0 <= j < |ports| ==> ports[j].protocol != "TCP" && ports[j].protocol != "UDP"
    ensures FinalKeys(c, DesiredLists(ports, nodes)) == c
  {
    NoSupportedPort(ports, nodes);
  }

  /** In an agreed state every stored target of a load balancer is forwarded by the kernel. */
  lemma TargetsForwarded(cfg: Config, s: State, name: string)
    requires ValidConfig(cfg) && Agreed(cfg, s) && name in s.store
    ensures forall p, t :: t in TargetsAt(s.store[name], p) ==>
              exists x :: x in Pairs(s.kernel) && Forwards(cfg, x, s.store[name].ipAddr, p, t)
  {
    forall p, t | t in TargetsAt(s.store[name], p)
      ensures exists x :: x in Pairs(s.kernel) && Forwards(cfg, x, s.store[name].ipAddr, p, t)
    {
      var e := Entry(name, s.store[name].ipAddr, p, t);
      StoredTargetIsMapped(cfg, s, name, p, t);
      ForwardsIff(cfg, PairOf(cfg, e), name, s.store[name].ipAddr, p, t);
      assert PairOf(cfg, e) in Pairs(s.kernel);
    }
  }

  // ---------- the calls of one reconciliation ----------

  datatype Call = Add(key: TargetKey) | Del(key: TargetKey)

  ghost function Do(cfg: Config, s: State, name: string, c: Call): State {
    match c
    case Add(k) => AddTargetStep(cfg, s, name, k.srcPort, ToTarget(k), NO_FAULTS).0
    case Del(k) => DelTargetStep(cfg, s, name, k.srcPort, ToTarget(k)).0
  }

  ghost function DoAll(cfg: Config, s: State, name: string, calls: seq<Call>): State {
    if calls == [] then s else Do(cfg, DoAll(cfg, s, name, calls[..|calls| - 1]), name, calls[|calls| - 1])
  }

  /** The stored keys after the calls, when the server refuses only duplicates and absentees. */
  function StoredAfter(stored: set<TargetKey>, calls: seq<Call>): set<TargetKey> {
    if calls == [] then stored
    else
      var before := StoredAfter(stored, calls[..|calls| - 1]);
      match calls[|calls| - 1]
      case Add(k) => before + {k}
      case Del(k) => before - {k}
  }

  ghost predicate Within(calls: seq<Call>, all: set<TargetKey>) {
    forall c :: c in calls && c.Add? ==> c.key in all
  }

  lemma DoOne(cfg: Config, s: State, name: string, calls: seq<Call>, c: Call)
    ensures DoAll(cfg, s, name, calls + [c]) == Do(cfg, DoAll(cfg, s, name, calls), name, c)
    ensures forall stored :: StoredAfter(stored, calls + [c])
              == if c.Add? then StoredAfter(stored, calls) + {c.key} else StoredAfter(stored, calls) - {c.key}
  {}

  lemma StoredWithin(stored: set<TargetKey>, calls: seq<Call>, all: set<TargetKey>)
    requires stored <= all && Within(calls, all)
    ensures StoredAfter(stored, calls) <= all
  {
    if calls != [] {
      assert calls[|calls| - 1] in calls;
    }
  }

  /** The server's refusals are as assumed: the calls keep it owned, change one load balancer's targets only,
      and store exactly the keys of StoredAfter. */
  lemma {:induction false} CallsStore(cfg: Config, s: State, name: string, calls: seq<Call>, all: set<TargetKey>)
    requires ValidConfig(cfg) && Owned(cfg, s) && name in s.store
    requires KeysOf(s.store[name]) <= all && Plain(cfg, all) && Within(calls, all)
    ensures var s' := DoAll(cfg, s, name, calls);
            && Owned(cfg, s') && OnlyTargetsOf(name, s, s')
            && KeysOf(s'.store[name]) == StoredAfter(KeysOf(s.store[name]), calls)
  {
    if calls != [] {
      var n := |calls| - 1;
      assert calls[n] in calls;
      CallsStore(cfg, s, name, calls[..n], all);
      StoredWithin(KeysOf(s.store[name]), calls[..n], all);
      CallStores(cfg, DoAll(cfg, s, name, calls[..n]), name, calls[n], all);
      assert DoAll(cfg, s, name, calls) == Do(cfg, DoAll(cfg, s, name, calls[..n]), name, calls[n]);
    }
  }

  lemma CallStores(cfg: Config, s: State, name: string, c: Call, all: set<TargetKey>)
    requires ValidConfig(cfg) && Owned(cfg, s) && name in s.store
    requires KeysOf(s.store[name]) <= all && Plain(cfg, all) && (c.Add? ==> c.key in all)
    ensures var s' := Do(cfg, s, name, c);
            && Owned(cfg, s') && OnlyTargetsOf(name, s, s')
            && KeysOf(s'.store[name])
               == (if c.Add? then KeysOf(s.store[name]) + {c.key} else KeysOf(s.store[name]) - {c.key})
  {
    match c
    case Add(k) =>
      PlainPart(cfg, KeysOf(s.store[name]), k, all);
      AddKey(cfg, s, name, k);
    case Del(k) => DelKey(cfg, s, name, k);
  }

  lemma PlainPart(cfg: Config, some: set<TargetKey>, k: TargetKey, all: set<TargetKey>)
    requires Plain(cfg, all) && some <= all && k in all
    ensures Plain(cfg, some + {k})
  {}

  /** Calls that only add what is stored change nothing. */
  lemma {:induction false} IdleCalls(cfg: Config, s: State, name: string, calls: seq<Call>)
    requires name in s.store && forall c :: c in calls ==> c.Add? && c.key in KeysOf(s.store[name])
    ensures DoAll(cfg, s, name, calls) == s
  {
    if calls != [] {
      var n := |calls| - 1;
      assert calls[n] in calls;
      IdleCalls(cfg, s, name, calls[..n]);
      AddAgain(cfg, s, name, calls[n].key);
    }
  }

  /** The fields of a Kubernetes service that the provider reads. */
  datatype K8sService = K8sService(namespace: string, name: string, loadBalancerIP: string, ports: seq<ServicePort>)

  function GetLoadBalancerName(clusterName: string, service: K8sService): string {
    clusterName + "%" + service.namespace + "%" + service.name
  }

  lemma LastChar(a: string, b: string, c: string, d: string)
    requires b == [] && d != [] && '%' !in d
    ensures a + "%" + b != c + "%" + d
  {
    var s, t := a + "%" + b, c + "%" + d;
    assert s[|s| - 1] == '%' && t[|t| - 1] == d[|d| - 1] && d[|d| - 1] in d;
  }

  lemma {:induction false} LastSeparator(a: string, b: string, c: string, d: string)
    requires '%' !in b && '%' !in d && a + "%" + b == c + "%" + d
    ensures a == c && b == d
    decreases |b|
  {
    var s := a + "%" + b;
    if b == [] || d == [] {
      if b == [] && d != [] {
        LastChar(a, b, c, d);
      } else if b != [] && d == [] {
        LastChar(c, d, a, b);
      } else {
        assert s[..|s| - 1] == a && s[..|s| - 1] == c;
      }
    } else {
      var b', d' := b[..|b| - 1], d[..|d| - 1];
      assert s[..|s| - 1] == a + "%" + b' && s[..|s| - 1] == c + "%" + d';
      LastSeparator(a, b', c, d');
      assert b == b' + [s[|s| - 1]] && d == d' + [s[|s| - 1]];
    }
  }

  /** Namespaces and service names hold no '%': a load balancer name is read back as cluster, namespace and service,
      in this order and in one way only. */
  lemma NameReadsBack(cluster: string, service: K8sService, a: string, b: string, c: string)
    requires '%' !in service.namespace && '%' !in service.name && '%' !in b && '%' !in c
    ensures GetLoadBalancerName(cluster, service) == a + "%" + b + "%" + c
            <==> a == cluster && b == service.namespace && c == service.name
  {
    if GetLoadBalancerName(cluster, service) == a + "%" + b + "%" + c {
      LastSeparator(cluster + "%" + service.namespace, service.name, a + "%" + b, c);
      LastSeparator(cluster, service.namespace, a, b);
    }
  }

  /** So it belongs to one cluster, namespace and service. */
  lemma NameIsUnique(c1: string, s1: K8sService, c2: string, s2: K8sService)
    requires '%' !in s1.namespace && '%' !in s1.name && '%' !in s2.namespace && '%' !in s2.name
    requires GetLoadBalancerName(c1, s1) == GetLoadBalancerName(c2, s2)
    ensures c1 == c2 && s1.namespace == s2.namespace && s1.name == s2.name
  {
    NameReadsBack(c2, s2, c2, s2.namespace, s2.name);
    NameReadsBack(c1, s1, c2, s2.namespace, s2.name);
  }

  lemma DeleteOutcome(cfg: Config, s: State, name: string)
    requires ValidConfig(cfg) && Owned(cfg, s)
    ensures var (s', reply) := DeleteStep(cfg, s, name);
            && Owned(cfg, s')
            && (if name in s.store then reply == Code(ERR_SUCCESS) && CleanlyDeleted(cfg, s, s', name)
                else reply == Code(ERR_NO_SUCH_LB) && s' == s)
  {
    StepKeepsOwned(cfg, s, Delete(name));
    if name in s.store {
      DeleteIsClean(cfg, s, name);
    }
  }

  lemma NewHasNoKeys(cfg: Config, s: State, name: string, requested: string)
    requires ValidRange(cfg.range) && CreateStep(cfg, s, name, requested, NO_FAULTS).1.Some?
    ensures var (s', lb) := CreateStep(cfg, s, name, requested, NO_FAULTS);
            && name !in s.store && name in s'.store && s'.store[name] == lb.value && lb.value.name == name
            && KeysOf(lb.value) == {}
            && s'.store == s.store[name := lb.value] && s.link <= s'.link
  {}

  class LoadBalancer {
    const client: Server

    constructor (client: Server)
      ensures this.client == client
    {
      this.client := client;
    }

    /** The keys of currentMappings; the list positions it maps them to are never read. */
    method CurrentMappings(lbinfo: LbInfo) returns (current: set<TargetKey>)
      ensures current == KeysOf(lbinfo)
    {
      current := {};
      var ports := lbinfo.targets.Keys;
      while ports != {}
        invariant ports <= lbinfo.targets.Keys
        invariant forall k :: k in current <==> k in KeysOf(lbinfo) && k.srcPort !in ports
        decreases |ports|
      {
        var port: int;
        port, ports := Take(ports);
        var list := lbinfo.targets[port];
        ghost var before := current;
        for i := 0 to |list|
          invariant current == before + set t | t in list[..i] :: NewTargetKey(t, port)
        {
          current := current + {NewTargetKey(list[i], port)};
          assert list[..i + 1] == list[..i] + [list[i]];
        }
        assert list[..|list|] == list;
        forall k
          ensures k in current <==> k in KeysOf(lbinfo) && k.srcPort !in ports
        {
          KeyIsStored(lbinfo, k);
          if k.srcPort == port && k in KeysOf(lbinfo) {
            assert k == NewTargetKey(ToTarget(k), port);
          }
        }
      }
    }

    method FirstInternalIP(node: Node) returns (ip: string)
      ensures ip == NodeIP(node.addresses)
    {
      ip := "";
      var addrs := node.addresses;
      for i := 0 to |addrs|
        invariant ip == "" && NodeIP(addrs) == NodeIP(addrs[i..])
      {
        assert addrs[i..][1..] == addrs[i + 1..];
        if addrs[i].kind == "InternalIP" {
          ip := addrs[i].address;
          break;
        }
      }
    }

    /** The node loop of one port: missing keys are added, current ones are ticked off. */
    method MapNodes(name: string, port: ServicePort, nodes: seq<Node>, current: set<TargetKey>,
                    ghost s0: State, ghost c: set<TargetKey>, ghost calls: seq<Call>)
      returns (left: set<TargetKey>, ghost calls': seq<Call>)
      requires client.State() == DoAll(client.cfg, s0, name, calls)
      modifies client, client.ipvs
      ensures client.State() == DoAll(client.cfg, s0, name, calls')
      ensures Progress(StoredAfter(c, calls'), left)
              == VisitAll(Progress(StoredAfter(c, calls), current), DesiredFor(port, nodes))
      ensures forall x :: x in calls' ==> x in calls || (x.Add? && x.key in DesiredFor(port, nodes))
    {
      left, calls' := current, calls;
      for i := 0 to |nodes|
        invariant client.State() == DoAll(client.cfg, s0, name, calls')
        invariant Progress(StoredAfter(c, calls'), left)
                  == VisitAll(Progress(StoredAfter(c, calls), current), DesiredFor(port, nodes[..i]))
        invariant forall x :: x in calls' ==> x in calls || (x.Add? && x.key in DesiredFor(port, nodes))
      {
        assert nodes[..i + 1][..i] == nodes[..i];
        var nodeIP := FirstInternalIP(nodes[i]);
        if nodeIP == "" {
          assert DesiredFor(port, nodes[..i + 1]) == DesiredFor(port, nodes[..i]);
          continue;
        }
        var key := KeyFor(port, nodeIP);
        DesiredPrefix(port, nodes, i);
        VisitSnoc(Progress(StoredAfter(c, calls), current), DesiredFor(port, nodes[..i]), key);
        if key !in left {
          DoOne(client.cfg, s0, name, calls', Add(key));
          var reply := client.AddTarget(name, port.port, ToTarget(key), NO_FAULTS);
          calls' := calls' + [Add(key)];
        } else {
          left := left - {key};
        }
      }
      assert nodes[..|nodes|] == nodes;
    }

    static lemma VisitSnoc(p: Progress, keys: seq<TargetKey>, k: TargetKey)
      ensures VisitAll(p, keys + [k]) == Visit(VisitAll(p, keys), k)
    {}

    static lemma DesiredPrefix(port: ServicePort, nodes: seq<Node>, i: nat)
      requires i < |nodes| && NodeIP(nodes[i].addresses) != ""
      ensures DesiredFor(port, nodes[..i + 1])
              == DesiredFor(port, nodes[..i]) + [KeyFor(port, NodeIP(nodes[i].addresses))]
      ensures KeyFor(port, NodeIP(nodes[i].addresses)) in DesiredFor(port, nodes)
    {
      assert nodes[..i + 1][..i] == nodes[..i];
      DesiredGrows(port, nodes, i + 1);
    }

    static lemma DesiredGrows(port: ServicePort, nodes: seq<Node>, i: nat)
      requires i <= |nodes|
      ensures forall k :: k in DesiredFor(port, nodes[..i]) ==> k in DesiredFor(port, nodes)
      decreases |nodes|
    {
      if i < |nodes| {
        var n := |nodes| - 1;
        DesiredGrows(port, nodes[..n], i);
        assert nodes[..n][..i] == nodes[..i];
      } else {
        assert nodes[..i] == nodes;
      }
    }

    /** The removal loop: whatever is left in the current mappings is deleted from the server, in any order. */
    method RemoveLeft(name: string, left: set<TargetKey>, ghost s0: State, ghost c: set<TargetKey>,
                      ghost calls: seq<Call>)
      returns (ghost calls': seq<Call>)
      requires client.State() == DoAll(client.cfg, s0, name, calls)
      modifies client, client.ipvs
      ensures client.State() == DoAll(client.cfg, s0, name, calls')
      ensures StoredAfter(c, calls') == StoredAfter(c, calls) - left
      ensures forall x :: x in calls' ==> x in calls || x.Del?
      ensures left == {} ==> calls' == calls
    {
      calls' := calls;
      var keys := left;
      while keys != {}
        invariant keys <= left && client.State() == DoAll(client.cfg, s0, name, calls')
        invariant StoredAfter(c, calls') == StoredAfter(c, calls) - (left - keys)
        invariant forall x :: x in calls' ==> x in calls || x.Del?
        invariant left == {} ==> calls' == calls
        decreases |keys|
      {
        var k: TargetKey;
        k, keys := Take(keys);
        DoOne(client.cfg, s0, name, calls', Del(k));
        var reply := client.DelTarget(name, k.srcPort, ToTarget(k));
        calls' := calls' + [Del(k)];
      }
      assert left - keys == left;
    }

    /** One supported port: its nodes, then the removals. */
    method ReconcilePort(name: string, port: ServicePort, nodes: seq<Node>, current: set<TargetKey>,
                         ghost s0: State, ghost c: set<TargetKey>, ghost calls: seq<Call>)
      returns (left: set<TargetKey>, ghost calls': seq<Call>)
      requires client.State() == DoAll(client.cfg, s0, name, calls)
      modifies client, client.ipvs
      ensures client.State() == DoAll(client.cfg, s0, name, calls')
      ensures Progress(StoredAfter(c, calls'), left)
              == PortPass(Progress(StoredAfter(c, calls), current), DesiredFor(port, nodes))
      ensures forall x :: x in calls' ==> x in calls || x.Del? || x.key in DesiredFor(port, nodes)
      ensures left == {} ==> forall x :: x in calls' ==> x in calls || x.Add?
    {
      left, calls' := MapNodes(name, port, nodes, current, s0, c, calls);
      calls' := RemoveLeft(name, left, s0, c, calls');
    }

    /** The loops of handleMappings as calls: they take the stored keys through all the passes. */
    method Reconcile(lbinfo: LbInfo, ports: seq<ServicePort>, nodes: seq<Node>) returns (ghost calls: seq<Call>)
      modifies client, client.ipvs
      ensures client.State() == DoAll(client.cfg, old(client.State()), lbinfo.name, calls)
      ensures StoredAfter(KeysOf(lbinfo), calls) == FinalKeys(KeysOf(lbinfo), DesiredLists(ports, nodes))
      ensures Within(calls, Desired(DesiredLists(ports, nodes)))
      ensures Settled(KeysOf(lbinfo), DesiredLists(ports, nodes)) ==> forall x :: x in calls ==> x.Add?
    {
      ghost var s0, c, lists := client.State(), KeysOf(lbinfo), DesiredLists(ports, nodes);
      calls := [];
      var current := CurrentMappings(lbinfo);
      ghost var done: seq<seq<TargetKey>> := [];
      for i := 0 to |ports|
        invariant client.State() == DoAll(client.cfg, s0, lbinfo.name, calls)
        invariant done == DesiredLists(ports[..i], nodes)
        invariant Progress(StoredAfter(c, calls), current) == AllPasses(Progress(c, c), done)
        invariant Within(calls, Desired(lists))
        invariant Settled(c, lists) ==> forall x :: x in calls ==> x.Add?
      {
        ListsPrefix(ports, nodes, i);
        if ToLBProtocol(ports[i].protocol) < 0 {
          continue;
        }
        ghost var l := DesiredFor(ports[i], nodes);
        PassSnoc(Progress(c, c), done, l);
        if Settled(c, lists) {
          SettledPass(c, lists, done, l);
        }
        current, calls := ReconcilePort(lbinfo.name, ports[i], nodes, current, s0, c, calls);
        done := done + [l];
      }
      assert ports[..|ports|] == ports;
      ReconcileExact(c, lists);
    }

    static lemma PassSnoc(p: Progress, lists: seq<seq<TargetKey>>, l: seq<TargetKey>)
      ensures AllPasses(p, lists + [l]) == PortPass(AllPasses(p, lists), l)
    {}

    /** Reconciles one load balancer with the desired keys: the stored targets end as FinalKeys says, no other
        load balancer and no alias changes, store and kernel stay in agreement, and a settled single port is
        left alone. */
    method HandleMappings(lbinfo: LbInfo, ports: seq<ServicePort>, nodes: seq<Node>)
      requires ValidConfig(client.cfg) && Owned(client.cfg, client.State())
      requires lbinfo.name in client.db && client.db[lbinfo.name] == lbinfo
      requires Plain(client.cfg, KeysOf(lbinfo) + Desired(DesiredLists(ports, nodes)))
      modifies client, client.ipvs
      ensures Owned(client.cfg, client.State()) && OnlyTargetsOf(lbinfo.name, old(client.State()), client.State())
      ensures KeysOf(client.State().store[lbinfo.name]) == FinalKeys(KeysOf(lbinfo), DesiredLists(ports, nodes))
      ensures Settled(KeysOf(lbinfo), DesiredLists(ports, nodes)) ==> client.State() == old(client.State())
    {
      ghost var s0, all := client.State(), KeysOf(lbinfo) + Desired(DesiredLists(ports, nodes));
      ghost var calls := Reconcile(lbinfo, ports, nodes);
      CallsStore(client.cfg, s0, lbinfo.name, calls, all);
      if Settled(KeysOf(lbinfo), DesiredLists(ports, nodes)) {
        IdleCalls(client.cfg, s0, lbinfo.name, calls);
      }
    }

    /** The only pass of a settled reconciliation leaves nothing to remove. */
    static lemma SettledPass(c: set<TargetKey>, lists: seq<seq<TargetKey>>, before: seq<seq<TargetKey>>,
                             l: seq<TargetKey>)
      requires Settled(c, lists) && |before| < |lists| && lists[|before|] == l
      ensures before == [] && PortPass(AllPasses(Progress(c, c), before), l).current == {}
    {
      FlatSplit(lists);
      assert lists[1..] == [];
      assert Flat(lists) == lists[0] == l;
      FirstVisits(c, l);
    }

    /** The list of a supported port extends those before it, and is part of them all. */
    static lemma ListsPrefix(ports: seq<ServicePort>, nodes: seq<Node>, i: nat)
      requires i < |ports|
      ensures var before, l := DesiredLists(ports[..i], nodes), DesiredFor(ports[i], nodes);
              var lists := DesiredLists(ports, nodes);
              if ToLBProtocol(ports[i].protocol) < 0 then DesiredLists(ports[..i + 1], nodes) == before
              else
                && DesiredLists(ports[..i + 1], nodes) == before + [l]
                && |before| < |lists| && lists[|before|] == l && KeySet(l) <= Desired(lists)
    {
      assert ports[..i + 1][..i] == ports[..i];
      if ToLBProtocol(ports[i].protocol) >= 0 {
        ListsGrow(ports, nodes, i + 1);
        FlatContains(DesiredLists(ports, nodes), |DesiredLists(ports[..i], nodes)|);
      }
    }

    static lemma ListsGrow(ports: seq<ServicePort>, nodes: seq<Node>, i: nat)
      requires i <= |ports|
      ensures DesiredLists(ports[..i], nodes) <= DesiredLists(ports, nodes)
      decreases |ports|
    {
      if i < |ports| {
        var n := |ports| - 1;
        ListsGrow(ports[..n], nodes, i);
        assert ports[..n][..i] == ports[..i];
      } else {
        assert ports[..i] == ports;
      }
    }

    static lemma {:induction false} FlatContains(lists: seq<seq<TargetKey>>, i: nat)
      requires i < |lists|
      ensures KeySet(lists[i]) <= KeySet(Flat(lists))
    {
      var n := |lists| - 1;
      if i < n {
        FlatContains(lists[..n], i);
      }
    }

    /** The stored load balancer of this name, or a newly created one; None when Create failed. */
    method FindOrCreate(name: string, requested: string) returns (r: Option<LbInfo>)
      requires ValidConfig(client.cfg) && Owned(client.cfg, client.State())
      requires name !in client.db && requested == ""
               ==> ScanEnds(LinkNumbers(client.link.addrs), Value(client.cfg.range.to))
      requires Admissible(client.cfg, client.State(), Create(name, requested, NO_FAULTS)) || name in client.db
      modifies client, client.link
      ensures client.State() == CreateStep(client.cfg, old(client.State()), name, requested, NO_FAULTS).0
      ensures Owned(client.cfg, client.State())
      ensures r.None? <==> name !in old(client.db)
                           && CreateStep(client.cfg, old(client.State()), name, requested, NO_FAULTS).1.None?
      ensures r.Some? ==> name in client.db && client.db[name] == r.value && r.value.name == name
      ensures r.Some? && name !in old(client.db) ==> KeysOf(r.value) == {}
    {
      ghost var s0 := client.State();
      if name in client.db {
        return Some(client.db[name]);
      }
      StepKeepsOwned(client.cfg, s0, Create(name, requested, NO_FAULTS));
      r := client.Create(name, requested, NO_FAULTS);
      if r.Some? {
        NewHasNoKeys(client.cfg, s0, name, requested);
      }
    }

    /** Creates the load balancer when the server does not know it, then reconciles it. The result is its
        address, or None when Create failed. Nothing of another load balancer changes, and no alias goes. */
    method EnsureLoadBalancer(clusterName: string, service: K8sService, nodes: seq<Node>) returns (r: Option<string>)
      requires ValidConfig(client.cfg) && Owned(client.cfg, client.State())
      requires var name := GetLoadBalancerName(clusterName, service);
               name !in client.db ==>
                 && (service.loadBalancerIP == ""
                     ==> ScanEnds(LinkNumbers(client.link.addrs), Value(client.cfg.range.to)))
                 && Admissible(client.cfg, client.State(), Create(name, service.loadBalancerIP, NO_FAULTS))
      requires Plain(client.cfg, KeysBefore(client.db, GetLoadBalancerName(clusterName, service))
                                 + Desired(DesiredLists(service.ports, nodes)))
      modifies client, client.link, client.ipvs
      ensures Owned(client.cfg, client.State())
      ensures var name := GetLoadBalancerName(clusterName, service);
              var (base, lb) := CreateStep(client.cfg, old(client.State()), name, service.loadBalancerIP, NO_FAULTS);
              && (r.None? <==> name !in old(client.db) && lb.None?)
              && (r.None? ==> client.State() == old(client.State()))
              && (r.Some? ==> name in client.db && r.value == client.db[name].ipAddr
                              && OnlyTargetsOf(name, base, client.State()))
      ensures forall n :: n in old(client.db) && n != GetLoadBalancerName(clusterName, service) ==>
                n in client.db && client.db[n] == old(client.db)[n]
      ensures old(client.link.addrs) <= client.link.addrs
      ensures var name, lists := GetLoadBalancerName(clusterName, service), DesiredLists(service.ports, nodes);
              r.Some? ==>
                KeysOf(client.db[name])
                == if name in old(client.db) then FinalKeys(KeysOf(old(client.db)[name]), lists) else Desired(lists)
      ensures var name := GetLoadBalancerName(clusterName, service);
              r.Some? && name !in old(client.db) ==>
                && (forall p, t :: t in TargetsAt(client.db[name], p) <==> AskedFor(service.ports, nodes, p, t))
                && (forall p, t :: AskedFor(service.ports, nodes, p, t) ==>
                      exists x :: x in Pairs(client.ipvs.table) && Forwards(client.cfg, x, r.value, p, t))
    {
      var name := GetLoadBalancerName(clusterName, service);
      ghost var s0 := client.State();
      var lbinfo := FindOrCreate(name, service.loadBalancerIP);
      CreateKeepsOthers(client.cfg, s0, name, service.loadBalancerIP);
      FinalFromNothing(DesiredLists(service.ports, nodes));
      if lbinfo.None? {
        return None;
      }
      HandleMappings(lbinfo.value, service.ports, nodes);
      TargetsForwarded(client.cfg, client.State(), name);
      if KeysOf(client.db[name]) == Desired(DesiredLists(service.ports, nodes)) {
        DesiredTargetsIff(client.db[name], service.ports, nodes);
      }
      return Some(lbinfo.value.ipAddr);
    }

    static ghost function KeysBefore(db: map<string, LbInfo>, name: string): set<TargetKey> {
      if name in db then KeysOf(db[name]) else {}
    }

    static lemma CreateKeepsOthers(cfg: Config, s: State, name: string, requested: string)
      requires ValidRange(cfg.range)
      ensures var (s', lb) := CreateStep(cfg, s, name, requested, NO_FAULTS);
              && s.link <= s'.link && (lb.None? ==> s' == s)
              && (forall n :: n in s.store ==> n in s'.store && s'.store[n] == s.store[n])
    {}

    /** Deletes the load balancer; code 1, no such name, is a success too. On an owned server it always succeeds, and
        nothing of the load balancer is left: no entry, no alias and no destination. */
    method EnsureLoadBalancerDeleted(clusterName: string, service: K8sService) returns (ok: bool)
      modifies client, client.link, client.ipvs
      ensures var (s', reply) := DeleteStep(client.cfg, old(client.State()), GetLoadBalancerName(clusterName, service));
              client.State() == s' && (ok <==> reply == Code(0) || reply == Code(1))
      ensures ValidConfig(client.cfg) && Owned(client.cfg, old(client.State())) ==>
                ok && Owned(client.cfg, client.State())
      ensures var name := GetLoadBalancerName(clusterName, service);
              ValidConfig(client.cfg) && Owned(client.cfg, old(client.State())) ==>
                if name in old(client.db) then CleanlyDeleted(client.cfg, old(client.State()), client.State(), name)
                else client.State() == old(client.State())
    {
      var name := GetLoadBalancerName(clusterName, service);
      ghost var s0 := client.State();
      if ValidConfig(client.cfg) && Owned(client.cfg, s0) {
        DeleteOutcome(client.cfg, s0, name);
      }
      var reply := client.Delete(name);
      return reply == Code(ERR_SUCCESS) || reply == Code(ERR_NO_SUCH_LB);
    }
  }
}
