/** What handleMappings of internal/proxmox/loadbalancer.go does to the set of targets of a load balancer. */
module Reconcile {
  import opened LbState

  datatype TargetKey = TargetKey(ip: string, dstPort: int, srcPort: int, protocol: int)

  datatype ServicePort = ServicePort(port: int, nodePort: int, protocol: string)
  datatype NodeAddress = NodeAddress(kind: string, address: string)
  datatype Node = Node(addresses: seq<NodeAddress>)

  function NewTargetKey(t: Target, srcPort: int): TargetKey {
    TargetKey(t.dstIP, t.dstPort, srcPort, t.protocol)
  }

  function ToTarget(k: TargetKey): Target {
    Target(k.protocol, k.ip, k.dstPort)
  }

  function ToLBProtocol(p: string): int {
    if p == "TCP" then TCP else if p == "UDP" then UDP else -1
  }

  /** The address of the first InternalIP entry, empty when there is none. */
  function NodeIP(addresses: seq<NodeAddress>): string {
    if addresses == [] then ""
    else if addresses[0].kind == "InternalIP" then addresses[0].address
    else NodeIP(addresses[1..])
  }

  function KeyFor(port: ServicePort, ip: string): TargetKey {
    TargetKey(ip, port.nodePort, port.port, ToLBProtocol(port.protocol))
  }

  /** The keys one port asks for: one per node that has an internal address. */
  function DesiredFor(port: ServicePort, nodes: seq<Node>): seq<TargetKey> {
    if nodes == [] then []
    else
      var n := |nodes| - 1;
      var ip := NodeIP(nodes[n].addresses);
      DesiredFor(port, nodes[..n]) + (if ip == "" then [] else [KeyFor(port, ip)])
  }

  /** The keys of the supported ports, port by port. */
  function DesiredLists(ports: seq<ServicePort>, nodes: seq<Node>): seq<seq<TargetKey>> {
    if ports == [] then []
    else
      var n := |ports| - 1;
      DesiredLists(ports[..n], nodes)
      + (if ToLBProtocol(ports[n].protocol) < 0 then [] else [DesiredFor(ports[n], nodes)])
  }

  function Flat(lists: seq<seq<TargetKey>>): seq<TargetKey> {
    if lists == [] then [] else Flat(lists[..|lists| - 1]) + lists[|lists| - 1]
  }

  ghost function KeySet(keys: seq<TargetKey>): set<TargetKey> {
    set k | k in keys
  }

  ghost function KeysOf(lb: LbInfo): set<TargetKey> {
    set p, t | p in lb.targets && t in lb.targets[p] :: NewTargetKey(t, p)
  }

  // ---------- the two sets that the loops change ----------

  /** The stored targets, and the current mappings not yet seen among the desired ones. */
  datatype Progress = Progress(stored: set<TargetKey>, current: set<TargetKey>)

  function Visit(p: Progress, k: TargetKey): Progress {
    if k in p.current then p.(current := p.current - {k}) else p.(stored := p.stored + {k})
  }

  function VisitAll(p: Progress, keys: seq<TargetKey>): Progress {
    if keys == [] then p else Visit(VisitAll(p, keys[..|keys| - 1]), keys[|keys| - 1])
  }

  /** One port: all its nodes, then the removal of whatever is left in the current mappings. */
  function PortPass(p: Progress, keys: seq<TargetKey>): Progress {
    var q := VisitAll(p, keys);
    q.(stored := q.stored - q.current)
  }

  function AllPasses(p: Progress, lists: seq<seq<TargetKey>>): Progress {
    if lists == [] then p else PortPass(AllPasses(p, lists[..|lists| - 1]), lists[|lists| - 1])
  }

  // ---------- the exact result ----------

  /** A key is stored at the end when the first supported port asks for it; or a later port asks for it
      and it was not current, or is asked for twice by later ports. Without a supported port nothing changes. */
  ghost function FinalKeys(current: set<TargetKey>, lists: seq<seq<TargetKey>>): set<TargetKey> {
    if lists == [] then current
    else
      var rest := Flat(lists[1..]);
      set k | k in KeySet(lists[0]) + KeySet(rest) && (k in lists[0] || k !in current || multiset(rest)[k] >= 2)
  }

  /** The two sets after the first port and the keys `rest` of later ports. */
  ghost function After(c: set<TargetKey>, first: seq<TargetKey>, rest: seq<TargetKey>): Progress {
    Progress(set k | k in KeySet(first) + KeySet(rest) && (k in first || k !in c || multiset(rest)[k] >= 2),
             set k | k in c && k !in first && k !in rest)
  }

  lemma VisitAfter(c: set<TargetKey>, first: seq<TargetKey>, rest: seq<TargetKey>, k: TargetKey)
    ensures Visit(After(c, first, rest), k) == After(c, first, rest + [k])
  {}

  lemma {:induction false} VisitAllAfter(c: set<TargetKey>, first: seq<TargetKey>, rest: seq<TargetKey>,
                                         keys: seq<TargetKey>)
    ensures VisitAll(After(c, first, rest), keys) == After(c, first, rest + keys)
  {
    if keys == [] {
      assert rest + keys == rest;
    } else {
      var n := |keys| - 1;
      VisitAllAfter(c, first, rest, keys[..n]);
      VisitAfter(c, first, rest + keys[..n], keys[n]);
      assert rest + keys == (rest + keys[..n]) + [keys[n]];
    }
  }

  lemma RemovalIsIdle(c: set<TargetKey>, first: seq<TargetKey>, rest: seq<TargetKey>)
    ensures After(c, first, rest).stored - After(c, first, rest).current == After(c, first, rest).stored
  {}

  lemma {:induction false} FirstVisits(c: set<TargetKey>, keys: seq<TargetKey>)
    ensures VisitAll(Progress(c, c), keys) == Progress(c + KeySet(keys), c - KeySet(keys))
  {
    if keys != [] {
      var n := |keys| - 1;
      FirstVisits(c, keys[..n]);
      assert keys == keys[..n] + [keys[n]];
      assert KeySet(keys) == KeySet(keys[..n]) + {keys[n]};
    }
  }

  lemma {:induction false} PassesAfter(c: set<TargetKey>, lists: seq<seq<TargetKey>>)
    requires lists != []
    ensures AllPasses(Progress(c, c), lists) == After(c, lists[0], Flat(lists[1..]))
  {
    var n := |lists| - 1;
    var before := lists[..n];
    if n == 0 {
      FirstVisits(c, lists[0]);
      assert AllPasses(Progress(c, c), before) == Progress(c, c);
      var p := Progress(c + KeySet(lists[0]), c - KeySet(lists[0]));
      assert p.stored - p.current == After(c, lists[0], []).stored;
      assert p.current == After(c, lists[0], []).current;
    } else {
      PassesAfter(c, before);
      assert before[1..] == lists[1..][..n - 1];
      var rest := Flat(before[1..]);
      VisitAllAfter(c, lists[0], rest, lists[n]);
      RemovalIsIdle(c, lists[0], rest + lists[n]);
    }
  }

  /** The exact result of the reconciler's loops, for all current and desired keys. */
  lemma ReconcileExact(c: set<TargetKey>, lists: seq<seq<TargetKey>>)
    ensures AllPasses(Progress(c, c), lists).stored == FinalKeys(c, lists)
  {
    if lists != [] {
      PassesAfter(c, lists);
    }
  }

  /** A load balancer without targets gets exactly the desired keys. */
  lemma FinalFromNothing(lists: seq<seq<TargetKey>>)
    ensures FinalKeys({}, lists) == Desired(lists)
  {
    if lists != [] {
      FlatSplit(lists);
    }
  }

  // ---------- distinct keys: convergence and oscillation ----------

  ghost predicate Distinct(keys: seq<TargetKey>) {
    forall i, j :: 0 <= i < j < |keys| ==> keys[i] != keys[j]
  }

  lemma {:induction false} DistinctCount(keys: seq<TargetKey>, k: TargetKey)
    requires Distinct(keys)
    ensures multiset(keys)[k] <= 1
  {
    if keys != [] {
      var n := |keys| - 1;
      DistinctCount(keys[..n], k);
      assert keys == keys[..n] + [keys[n]];
      if keys[n] == k {
        assert k !in keys[..n];
      }
    }
  }

  /** Keys that only later ports ask for. */
  ghost function LaterOnly(lists: seq<seq<TargetKey>>): set<TargetKey>
    requires lists != []
  {
    KeySet(Flat(lists[1..])) - KeySet(lists[0])
  }

  ghost function Desired(lists: seq<seq<TargetKey>>): set<TargetKey> {
    KeySet(Flat(lists))
  }

  lemma {:induction false} FlatSplit(lists: seq<seq<TargetKey>>)
    requires lists != []
    ensures Flat(lists) == lists[0] + Flat(lists[1..])
  {
    var n := |lists| - 1;
    if n == 0 {
      assert Flat(lists[..0]) == [];
    } else {
      FlatSplit(lists[..n]);
      assert lists[..n][1..] == lists[1..][..n - 1];
      assert Flat(lists[1..]) == Flat(lists[1..][..n - 1]) + lists[n];
      assert Flat(lists) == Flat(lists[..n]) + lists[n];
    }
  }

  /** With distinct desired keys: the first port's keys, and those of later ports that were not current. */
  lemma DistinctResult(c: set<TargetKey>, lists: seq<seq<TargetKey>>)
    requires lists != [] && Distinct(Flat(lists))
    ensures FinalKeys(c, lists) == KeySet(lists[0]) + (LaterOnly(lists) - c)
  {
    var rest := Flat(lists[1..]);
    FlatSplit(lists);
    assert forall i :: 0 <= i < |rest| ==> rest[i] == Flat(lists)[|lists[0]| + i];
    forall k ensures multiset(rest)[k] <= 1 { DistinctCount(rest, k); }
  }

  /** The reconciler reaches the desired set exactly when no key that only a later port asks for was
      already current; with no supported port, exactly when there was nothing to begin with. */
  lemma ConvergesIff(c: set<TargetKey>, lists: seq<seq<TargetKey>>)
    requires Distinct(Flat(lists))
    ensures FinalKeys(c, lists) == Desired(lists)
            <==> (if lists == [] then c == {} else c !! LaterOnly(lists))
  {
    if lists != [] {
      DistinctResult(c, lists);
      FlatSplit(lists);
      assert Desired(lists) == KeySet(lists[0]) + LaterOnly(lists);
      if k :| k in c && k in LaterOnly(lists) {
        assert k in Desired(lists) && k !in FinalKeys(c, lists);
      }
    }
  }

  /** One supported port, or nothing current: the result is the desired set, duplicates or not. */
  lemma ConvergesSimply(c: set<TargetKey>, lists: seq<seq<TargetKey>>)
    requires |lists| == 1 || (lists != [] && c == {})
    ensures FinalKeys(c, lists) == Desired(lists)
  {
    FlatSplit(lists);
    if |lists| == 1 {
      assert lists[1..] == [];
    }
  }

  /** One supported port, and its keys are the current ones. */
  ghost predicate Settled(c: set<TargetKey>, lists: seq<seq<TargetKey>>) {
    |lists| == 1 && c == Desired(lists)
  }

  /** With one supported port, whatever was current, one run settles. */
  lemma OnePortSettles(c: set<TargetKey>, lists: seq<seq<TargetKey>>)
    requires |lists| == 1
    ensures Settled(FinalKeys(c, lists), lists)
  {}

  lemma TwoPortsTwoKeys(p: ServicePort, q: ServicePort, ip: string)
    requires ToLBProtocol(p.protocol) >= 0 && ToLBProtocol(q.protocol) >= 0 && ip != ""
    ensures DesiredLists([p, q], [Node([NodeAddress("InternalIP", ip)])]) == [[KeyFor(p, ip)], [KeyFor(q, ip)]]
  {
    var nodes := [Node([NodeAddress("InternalIP", ip)])];
    assert nodes[..0] == [] && NodeIP(nodes[0].addresses) == ip;
    assert DesiredFor(p, nodes) == [KeyFor(p, ip)] && DesiredFor(q, nodes) == [KeyFor(q, ip)];
    assert [p, q][..1] == [p] && [p][..0] == [];
    assert DesiredLists([p], nodes) == [[KeyFor(p, ip)]];
  }

  /** Two supported ports and one node: from the desired state a run drops the second port's target, and the next
      run adds it back. */
  lemma TwoPortsFlap(p: ServicePort, q: ServicePort, ip: string)
    requires ToLBProtocol(p.protocol) >= 0 && ToLBProtocol(q.protocol) >= 0 && ip != ""
    requires (p.port, p.protocol) != (q.port, q.protocol)
    ensures var lists := DesiredLists([p, q], [Node([NodeAddress("InternalIP", ip)])]);
            var a, b := KeyFor(p, ip), KeyFor(q, ip);
            && a != b && Desired(lists) == {a, b}
            && FinalKeys({a, b}, lists) == {a} && FinalKeys({a}, lists) == {a, b}
  {
    var a, b := KeyFor(p, ip), KeyFor(q, ip);
    var lists := [[a], [b]];
    TwoPortsTwoKeys(p, q, ip);
    FlatSplit(lists);
    assert lists[1..] == [[b]];
    assert Flat([[b]]) == [b] by { assert [[b]][..0] == []; }
    assert multiset([b])[b] == 1;
  }

  ghost function Iterate(c: set<TargetKey>, lists: seq<seq<TargetKey>>, runs: nat): set<TargetKey> {
    if runs == 0 then c else FinalKeys(Iterate(c, lists, runs - 1), lists)
  }

  /** Repeated runs alternate: after an odd number the later-only keys that were not current are stored,
      after an even number those that were. */
  lemma {:induction false} RunsAlternate(c: set<TargetKey>, lists: seq<seq<TargetKey>>, runs: nat)
    requires lists != [] && Distinct(Flat(lists)) && runs > 0
    ensures Iterate(c, lists, runs)
            == KeySet(lists[0]) + (if runs % 2 == 1 then LaterOnly(lists) - c else LaterOnly(lists) * c)
  {
    DistinctResult(Iterate(c, lists, runs - 1), lists);
    if runs > 1 {
      RunsAlternate(c, lists, runs - 1);
      assert forall k :: k in LaterOnly(lists) ==> k !in KeySet(lists[0]);
    }
  }

  /** So repeating the reconciler settles exactly when no later port asks for a key of its own. */
  lemma SettlesIff(c: set<TargetKey>, lists: seq<seq<TargetKey>>, runs: nat)
    requires lists != [] && Distinct(Flat(lists)) && runs > 0
    ensures Iterate(c, lists, runs + 1) == Iterate(c, lists, runs) <==> LaterOnly(lists) == {}
  {
    RunsAlternate(c, lists, runs);
    RunsAlternate(c, lists, runs + 1);
    if k :| k in LaterOnly(lists) {
      assert k !in KeySet(lists[0]);
      assert k in Iterate(c, lists, runs) <==> k !in Iterate(c, lists, runs + 1);
    }
  }

  // ---------- when desired keys are distinct ----------

  ghost predicate DistinctNodes(nodes: seq<Node>) {
    forall i, j :: 0 <= i < j < |nodes| && NodeIP(nodes[i].addresses) != ""
      ==> NodeIP(nodes[i].addresses) != NodeIP(nodes[j].addresses)
  }

  ghost predicate DistinctPorts(ports: seq<ServicePort>) {
    forall i, j :: 0 <= i < j < |ports| ==> (ports[i].port, ports[i].protocol) != (ports[j].port, ports[j].protocol)
  }

  lemma {:induction false} DesiredForMembers(port: ServicePort, nodes: seq<Node>, k: TargetKey)
    requires k in DesiredFor(port, nodes)
    ensures k.ip != "" && k == KeyFor(port, k.ip)
    ensures exists i :: 0 <= i < |nodes| && NodeIP(nodes[i].addresses) == k.ip
  {
    var n := |nodes| - 1;
    if k in DesiredFor(port, nodes[..n]) {
      DesiredForMembers(port, nodes[..n], k);
      var i :| 0 <= i < n && NodeIP(nodes[..n][i].addresses) == k.ip;
      assert NodeIP(nodes[i].addresses) == k.ip;
    } else {
      assert NodeIP(nodes[n].addresses) == k.ip;
    }
  }

  lemma {:induction false} DesiredForDistinct(port: ServicePort, nodes: seq<Node>)
    requires DistinctNodes(nodes)
    ensures Distinct(DesiredFor(port, nodes))
  {
    if nodes != [] {
      var n := |nodes| - 1;
      DesiredForDistinct(port, nodes[..n]);
      var before, ip := DesiredFor(port, nodes[..n]), NodeIP(nodes[n].addresses);
      forall k | k in before
        ensures k != KeyFor(port, ip)
      {
        DesiredForMembers(port, nodes[..n], k);
      }
      assert forall i :: 0 <= i < |before| ==> before[i] in before;
    }
  }

  lemma {:induction false} FlatMember(ports: seq<ServicePort>, nodes: seq<Node>, k: TargetKey) returns (i: nat)
    requires k in Flat(DesiredLists(ports, nodes))
    ensures i < |ports| && ToLBProtocol(ports[i].protocol) >= 0 && k in DesiredFor(ports[i], nodes)
  {
    var n := |ports| - 1;
    LastPort(ports, nodes);
    if k in Flat(DesiredLists(ports[..n], nodes)) {
      i := FlatMember(ports[..n], nodes, k);
    } else {
      i := n;
    }
  }

  lemma LastPort(ports: seq<ServicePort>, nodes: seq<Node>)
    requires ports != []
    ensures var n := |ports| - 1;
            Flat(DesiredLists(ports, nodes))
            == Flat(DesiredLists(ports[..n], nodes))
               + (if ToLBProtocol(ports[n].protocol) < 0 then [] else DesiredFor(ports[n], nodes))
  {
    var n := |ports| - 1;
    var before := DesiredLists(ports[..n], nodes);
    if ToLBProtocol(ports[n].protocol) < 0 {
      assert DesiredLists(ports, nodes) == before;
      assert Flat(before) + [] == Flat(before);
    } else {
      assert DesiredLists(ports, nodes)[..|before|] == before;
    }
  }

  /** Distinct (port, protocol) pairs and distinct node addresses give distinct desired keys. */
  lemma {:induction false} DesiredDistinct(ports: seq<ServicePort>, nodes: seq<Node>)
    requires DistinctPorts(ports) && DistinctNodes(nodes)
    ensures Distinct(Flat(DesiredLists(ports, nodes)))
  {
    if ports != [] {
      var n := |ports| - 1;
      var before := DesiredLists(ports[..n], nodes);
      DesiredDistinct(ports[..n], nodes);
      LastPort(ports, nodes);
      if ToLBProtocol(ports[n].protocol) >= 0 {
        DesiredForDistinct(ports[n], nodes);
        var a, b := Flat(before), DesiredFor(ports[n], nodes);
        forall k | k in a && k in b
          ensures false
        {
          var i := FlatMember(ports[..n], nodes, k);
          DesiredForMembers(ports[i], nodes, k);
          DesiredForMembers(ports[n], nodes, k);
        }
        DistinctConcat(a, b);
      }
    }
  }

  lemma DistinctConcat(a: seq<TargetKey>, b: seq<TargetKey>)
    requires Distinct(a) && Distinct(b) && forall k :: k in a ==> k !in b
    ensures Distinct(a + b)
  {
    var c := a + b;
    forall i, j | 0 <= i < j < |c|
      ensures c[i] != c[j]
    {
      if i < |a| <= j {
        assert c[i] in a && c[j] in b;
      }
    }
  }

  // ---------- the desired keys in the terms of the service and its nodes ----------

  /** The node's first address of kind InternalIP. */
  ghost predicate HasInternalIP(node: Node, ip: string) {
    exists j :: 0 <= j < |node.addresses| && node.addresses[j] == NodeAddress("InternalIP", ip)
                && forall i :: 0 <= i < j ==> node.addresses[i].kind != "InternalIP"
  }

  /** The port asks for this target on this source port: TCP (0) or UDP (1), its own port as source port, its node
      port as destination port, on a node with that internal address. */
  ghost predicate Asks(port: ServicePort, nodes: seq<Node>, srcPort: int, t: Target) {
    && (port.protocol == "TCP" || port.protocol == "UDP")
    && srcPort == port.port && t.dstPort == port.nodePort
    && t.protocol == (if port.protocol == "UDP" then 1 else 0)
    && t.dstIP != "" && exists i :: 0 <= i < |nodes| && HasInternalIP(nodes[i], t.dstIP)
  }

  /** Some port of the service asks for the target. */
  ghost predicate AskedFor(ports: seq<ServicePort>, nodes: seq<Node>, srcPort: int, t: Target) {
    exists i :: 0 <= i < |ports| && Asks(ports[i], nodes, srcPort, t)
  }

  lemma {:induction false} NodeIPIff(node: Node, ip: string)
    requires ip != ""
    ensures NodeIP(node.addresses) == ip <==> HasInternalIP(node, ip)
    decreases |node.addresses|
  {
    var a := node.addresses;
    if a != [] && a[0].kind != "InternalIP" {
      var rest := Node(a[1..]);
      NodeIPIff(rest, ip);
      if HasInternalIP(rest, ip) {
        var j :| 0 <= j < |rest.addresses| && rest.addresses[j] == NodeAddress("InternalIP", ip)
                 && forall i :: 0 <= i < j ==> rest.addresses[i].kind != "InternalIP";
        assert a[j + 1] == NodeAddress("InternalIP", ip);
        assert forall i :: 0 < i < j + 1 ==> a[i] == rest.addresses[i - 1];
      }
      if HasInternalIP(node, ip) {
        var j :| 0 <= j < |a| && a[j] == NodeAddress("InternalIP", ip)
                 && forall i :: 0 <= i < j ==> a[i].kind != "InternalIP";
        assert rest.addresses[j - 1] == NodeAddress("InternalIP", ip);
      }
    } else if a != [] && a[0].address == ip {
      assert a[0] == NodeAddress("InternalIP", ip);
    }
  }

  /** Exactly the keys that a TCP or UDP port asks for. */
  lemma {:induction false} DesiredForIff(port: ServicePort, nodes: seq<Node>, k: TargetKey)
    requires port.protocol == "TCP" || port.protocol == "UDP"
    ensures k in DesiredFor(port, nodes) <==> Asks(port, nodes, k.srcPort, Target(k.protocol, k.ip, k.dstPort))
  {
    if nodes != [] {
      var n := |nodes| - 1;
      DesiredForIff(port, nodes[..n], k);
      if k.ip != "" {
        NodeIPIff(nodes[n], k.ip);
        if i :| 0 <= i < n && HasInternalIP(nodes[i], k.ip) {
          assert HasInternalIP(nodes[..n][i], k.ip);
        }
      }
    }
  }

  /** The ports with another protocol are passed over, the others keep their order. */
  lemma {:induction false} DesiredListsSplit(ports: seq<ServicePort>, nodes: seq<Node>, i: nat)
    requires i < |ports|
    requires forall j :: 0 <= j < i ==> ports[j].protocol != "TCP" && ports[j].protocol != "UDP"
    requires ports[i].protocol == "TCP" || ports[i].protocol == "UDP"
    ensures DesiredLists(ports, nodes) == [DesiredFor(ports[i], nodes)] + DesiredLists(ports[i + 1..], nodes)
    decreases |ports|
  {
    var n := |ports| - 1;
    if i < n {
      DesiredListsSplit(ports[..n], nodes, i);
      LastDropped(ports, i + 1);
    } else {
      NoSupportedPort(ports[..n], nodes);
      assert ports[i + 1..] == [];
    }
  }

  lemma LastDropped(ports: seq<ServicePort>, i: nat)
    requires i < |ports|
    ensures var later, n := ports[i..], |ports| - 1;
            later != [] && later[..|later| - 1] == ports[..n][i..] && later[|later| - 1] == ports[n]
  {}

  lemma {:induction false} NoSupportedPort(ports: seq<ServicePort>, nodes: seq<Node>)
    requires forall j :: 0 <= j < |ports| ==> ports[j].protocol != "TCP" && ports[j].protocol != "UDP"
    ensures DesiredLists(ports, nodes) == []
  {
    if ports != [] {
      NoSupportedPort(ports[..|ports| - 1], nodes);
    }
  }

  /** All the desired keys together: what some port asks for. */
  lemma {:induction false} DesiredIff(ports: seq<ServicePort>, nodes: seq<Node>, k: TargetKey)
    ensures k in Desired(DesiredLists(ports, nodes))
            <==> AskedFor(ports, nodes, k.srcPort, Target(k.protocol, k.ip, k.dstPort))
  {
    if ports != [] {
      var n := |ports| - 1;
      DesiredIff(ports[..n], nodes, k);
      LastPort(ports, nodes);
      if ToLBProtocol(ports[n].protocol) >= 0 {
        DesiredForIff(ports[n], nodes, k);
      }
      if i :| 0 <= i < n && Asks(ports[i], nodes, k.srcPort, Target(k.protocol, k.ip, k.dstPort)) {
        assert Asks(ports[..n][i], nodes, k.srcPort, Target(k.protocol, k.ip, k.dstPort));
      }
    }
  }
}
