/** What the server hands to the kernel survives the netlink encoding, and what goes wrong when callers leave
    the ordinary cases. */
module LbWire {
  import opened NetAddr
  import opened CidrBlocks
  import opened IpvsCodec
  import opened IpvsCodecProofs
  import opened LbState
  import opened LbProofs
  import opened LbRuns
  import opened LbOutcomes

  lemma RawTwice(ip: Bytes)
    requires |ip| == 16
    ensures RawIPData(RawIPData(ip)) == RawIPData(ip)
  {}

  /** A service built by the server is the same service, to the kernel, after encoding and decoding. */
  lemma ServiceKeySurvives(e: Endian, parse: Parser, cfg: Config, ipAddr: string, srcPort: int, protocol: int)
    requires |cfg.parse(ipAddr)| == 16
    ensures var s := ToIpvsService(cfg, ipAddr, srcPort, protocol);
            var l := ServiceAttrs(e, s);
            && AddressSized(Last(l, SVC_ADDRESS), Num(e, Last(l, SVC_FAMILY), 2))
            && ServiceOf(e, parse, l).Ok? && KeyOfService(ServiceOf(e, parse, l).value) == KeyOfService(s)
  {
    var s := ToIpvsService(cfg, ipAddr, srcPort, protocol);
    ServiceRoundTrip(e, parse, s);
    RawTwice(s.address);
  }

  /** A destination built by the server comes back as the same destination exactly when its family can be
      told from its bytes; its weight of one survives on little-endian hosts only. */
  lemma DestinationKeySurvivesIff(e: Endian, parse: Parser, cfg: Config, t: Target)
    requires |cfg.parse(t.dstIP)| == 16
    ensures var d := ToIpvsDestination(cfg, t);
            var l := DestinationAttrs(e, d);
            && DestAddressSized(Last(l, DEST_ADDRESS), Num(e, Last(l, DEST_FAMILY), 2))
            && var r := DestinationOf(e, parse, l);
               && (r.Ok? && KeyOfDestination(r.value) == KeyOfDestination(d)
                   <==> To4(d.address) != [] || !IsZeros(d.address[4..]))
               && (r.Ok? ==> r.value.weight == if e.Little? then 1 else 0)
  {
    var d := ToIpvsDestination(cfg, t);
    DestinationRoundTrip(e, parse, d);
    var r := DestinationOf(e, parse, DestinationAttrs(e, d));
    if r.Ok? {
      DecodedAddress(e, parse, d);
      SameRaw(r.value.address, d.address);
    }
  }

  lemma DecodedAddress(e: Endian, parse: Parser, d: Destination)
    requires IsIP(d.address)
    ensures var l := DestinationAttrs(e, d);
            && DestAddressSized(Last(l, DEST_ADDRESS), Num(e, Last(l, DEST_FAMILY), 2))
            && (DestinationOf(e, parse, l).Ok? ==> IsIP(DestinationOf(e, parse, l).value.address))
  {
    DestinationLookups(e, d);
    DestinationFieldsRecovered(e, parse, d);
    RawIPDataSame(d.address);
  }

  lemma SameRaw(a: Bytes, b: Bytes)
    requires IsIP(a) && |b| == 16
    ensures RawIPData(a) == RawIPData(b) <==> SameIP(a, b)
  {}

  // ---------- the attributes themselves ----------

  /** Two bytes in host order. */
  ghost function Word(e: Endian, v: nat): Bytes
    requires v < 65536
  {
    if e.Little? then [v % 256, v / 256] else [v / 256, v % 256]
  }

  lemma TwoBytes(e: Endian, v: nat)
    requires v < 65536
    ensures Native(e, v, 2) == Word(e, v) && FromValue(v, 2) == [v / 256, v % 256]
  {
    assert LittleBytes(v / 256, 1) == [v / 256] + LittleBytes(0, 0);
    assert FromValue(v, 2) == (FromValue(v / 256 / 256, 0) + [v / 256 % 256]) + [v % 256];
  }

  lemma FourBytes(e: Endian)
    ensures Native(e, 0, 4) == [0, 0, 0, 0] && Native(e, 0xFFFF_FFFF, 4) == [255, 255, 255, 255]
    ensures Native(e, 1, 4) == if e.Little? then [1, 0, 0, 0] else [0, 0, 0, 1]
  {
    assert LittleBytes(0, 4) == [0] + ([0] + ([0] + ([0] + LittleBytes(0, 0))));
    assert LittleBytes(1, 4) == [1] + ([0] + ([0] + ([0] + LittleBytes(0, 0))));
    assert LittleBytes(0xFFFF_FFFF, 4) == [255] + ([255] + ([255] + ([255] + LittleBytes(0, 0))));
    assert FromValue(0, 4) == (((FromValue(0, 0) + [0]) + [0]) + [0]) + [0];
    assert FromValue(1, 4) == (((FromValue(0, 0) + [0]) + [0]) + [0]) + [1];
    assert FromValue(0xFFFF_FFFF, 4) == (((FromValue(0, 0) + [255]) + [255]) + [255]) + [255];
  }

  /** What the server sends for a service: family, protocol, address bytes, port in network order, the round-robin
      scheduler "rr", no flags under a full mask, no timeout and no netmask. */
  lemma ServiceOnTheWire(e: Endian, cfg: Config, k: SvcKey, ipAddr: string, port: int, protocol: int)
    requires Parses(cfg) && IsServiceOf(cfg, k, ipAddr, port, protocol)
    ensures ServiceAttrs(e, ToIpvsService(cfg, ipAddr, port, protocol))
            == [Attr(1, Word(e, k.family)), Attr(2, Word(e, k.protocol)), Attr(3, k.address),
                Attr(4, [k.port / 256, k.port % 256]), Attr(6, [114, 114, 0]),
                Attr(7, [0, 0, 0, 0, 255, 255, 255, 255]), Attr(8, [0, 0, 0, 0]), Attr(9, [0, 0, 0, 0])]
  {
    ServiceIff(cfg, k, ipAddr, port, protocol);
    RoundRobinAttrs(e, ToIpvsService(cfg, ipAddr, port, protocol));
    TwoBytes(e, k.family);
    TwoBytes(e, k.protocol);
    TwoBytes(e, k.port);
  }

  lemma RoundRobinAttrs(e: Endian, s: Service)
    requires s.schedName == [114, 114] && s.peName == []
    requires s.fwMark == 0 && s.flags == 0 && s.timeout == 0 && s.netmask == 0
    ensures ServiceAttrs(e, s)
            == [Attr(1, Native(e, s.addressFamily, 2)), Attr(2, Native(e, s.protocol, 2)),
                Attr(3, RawIPData(s.address)), Attr(4, FromValue(s.port, 2)), Attr(6, [114, 114, 0]),
                Attr(7, [0, 0, 0, 0, 255, 255, 255, 255]), Attr(8, [0, 0, 0, 0]), Attr(9, [0, 0, 0, 0])]
  {
    FourBytes(e);
    var rr, zero, full: Bytes := [114, 114], [0, 0, 0, 0], [255, 255, 255, 255];
    assert rr + [0] == [114, 114, 0];
    assert zero + full == [0, 0, 0, 0, 255, 255, 255, 255];
  }

  /** And for a destination: address bytes, port in network order, masquerading, weight one, no thresholds. */
  lemma DestinationOnTheWire(e: Endian, cfg: Config, d: DstKey, t: Target)
    requires Parses(cfg) && IsBackendOf(cfg, d, t)
    ensures DestinationAttrs(e, ToIpvsDestination(cfg, t))
            == [Attr(1, d.address), Attr(2, [d.port / 256, d.port % 256]), Attr(3, [0, 0, 0, 0]),
                Attr(4, if e.Little? then [1, 0, 0, 0] else [0, 0, 0, 1]),
                Attr(5, [0, 0, 0, 0]), Attr(6, [0, 0, 0, 0])]
  {
    BackendIff(cfg, d, t);
    TwoBytes(e, d.port);
    FourBytes(e);
  }

  // ---------- ports that are cut to the same 16 bits ----------

  /** Ports 80 and 65616 are one kernel service. */
  lemma SamePort(cfg: Config, ip: string, t: Target, u: Target)
    requires t.protocol == u.protocol
    ensures SvcOf(cfg, Entry("a", ip, 80, t)) == SvcOf(cfg, Entry("a", ip, 65616, u))
  {}

  /** A first target on a port of load balancer "a" that the kernel does not hold is stored alone. */
  lemma FirstOnPort(cfg: Config, s: State, ip: string, port: int, t: Target)
    requires "a" in s.store && s.store["a"].ipAddr == ip && port !in s.store["a"].targets
    requires PairOf(cfg, Entry("a", ip, port, t)) !in Pairs(s.kernel)
    ensures var s' := AddTargetStep(cfg, s, "a", port, t, NO_FAULTS).0;
            && "a" in s'.store && s'.store["a"] == s.store["a"].(targets := s.store["a"].targets[port := [t]])
            && Pairs(s'.kernel) == Pairs(s.kernel) + {PairOf(cfg, Entry("a", ip, port, t))}
  {
    AddStores(cfg, s, "a", port, t);
    assert TargetsAt(s.store["a"], port) + [t] == [t];
  }

  /** A target on each of the two ports of load balancer "a" is stored, in an agreed state. */
  lemma BothPortsStored(cfg: Config, s: State, ip: string, t: Target, u: Target)
    requires ValidConfig(cfg) && Agreed(cfg, s) && Pairs(s.kernel) == {} && t.protocol == u.protocol
    requires "a" in s.store && s.store["a"].ipAddr == ip && s.store["a"].targets == map[]
    requires KeyOfDestination(ToIpvsDestination(cfg, t)) != KeyOfDestination(ToIpvsDestination(cfg, u))
    ensures var s' := AddTargetStep(cfg, AddTargetStep(cfg, s, "a", 80, t, NO_FAULTS).0, "a", 65616, u, NO_FAULTS).0;
            && Agreed(cfg, s') && "a" in s'.store && s'.store["a"].ipAddr == ip
            && TargetsAt(s'.store["a"], 80) == [t] && TargetsAt(s'.store["a"], 65616) == [u]
  {
    var s1 := AddTargetStep(cfg, s, "a", 80, t, NO_FAULTS).0;
    FirstOnPort(cfg, s, ip, 80, t);
    FirstOnPort(cfg, s1, ip, 65616, u);
    AddTargetKeepsAgreed(cfg, s, "a", 80, t, NO_FAULTS);
    AddTargetKeepsAgreed(cfg, s1, "a", 65616, u, NO_FAULTS);
  }

  lemma CutPortDelete(cfg: Config, s: State, ip: string, t: Target, u: Target)
    requires Agreed(cfg, s) && "a" in s.store && s.store["a"].ipAddr == ip && t.protocol == u.protocol
    requires TargetsAt(s.store["a"], 80) == [t] && TargetsAt(s.store["a"], 65616) == [u]
    ensures !Agreed(cfg, DelTargetStep(cfg, s, "a", 80, t).0)
  {
    SamePort(cfg, ip, t, u);
    StoredEntry(s.store, "a", 65616, u);
    DelTargetAgreedIff(cfg, s, "a", 80, t);
  }

  /** After a target on each, removing the first port's only target removes the shared service and with it the
      second port's destination: the store still asks for what the kernel no longer has. */
  lemma CutPortBreaksAgreement(cfg: Config, s: State, ip: string, t: Target, u: Target)
    requires ValidConfig(cfg) && Empty(s) && ip != "" && InCidr(cfg.cidr, cfg.parse(ip)) && t.protocol == u.protocol
    requires KeyOfDestination(ToIpvsDestination(cfg, t)) != KeyOfDestination(ToIpvsDestination(cfg, u))
    ensures var s1 := CreateStep(cfg, s, "a", ip, NO_FAULTS).0;
            var s2 := AddTargetStep(cfg, s1, "a", 80, t, NO_FAULTS).0;
            var s3 := AddTargetStep(cfg, s2, "a", 65616, u, NO_FAULTS).0;
            Agreed(cfg, s3) && !Agreed(cfg, DelTargetStep(cfg, s3, "a", 80, t).0)
  {
    var s1 := CreateStep(cfg, s, "a", ip, NO_FAULTS).0;
    EmptyAgrees(cfg, s);
    CreateKeepsAgreed(cfg, s, "a", ip, NO_FAULTS);
    BothPortsStored(cfg, s1, ip, t, u);
    var s2 := AddTargetStep(cfg, s1, "a", 80, t, NO_FAULTS).0;
    CutPortDelete(cfg, AddTargetStep(cfg, s2, "a", 65616, u, NO_FAULTS).0, ip, t, u);
  }

  lemma SharedServiceDelete(cfg: Config, s: State, a: Entry, b: Entry)
    requires Agreed(cfg, s) && a in Entries(s.store) && b in Entries(s.store)
    requires a.name != b.name && SvcOf(cfg, a) == SvcOf(cfg, b)
    ensures !Agreed(cfg, DeleteStep(cfg, s, a.name).0)
  {
    ComboKeysAreServices(cfg, a.name, s.store[a.name]);
    assert a in EntriesOf(a.name, s.store[a.name]);
    DeleteAgreedIff(cfg, s, a.name);
  }

  // ---------- an address that two load balancers were created with ----------

  /** A target of a load balancer that has none, when the kernel does not hold its pair. */
  lemma FirstTarget(cfg: Config, s: State, name: string, ip: string, port: int, t: Target)
    requires Agreed(cfg, s) && name in s.store && s.store[name] == LbInfo(name, ip, map[])
    requires PairOf(cfg, Entry(name, ip, port, t)) !in Pairs(s.kernel)
    ensures var s' := AddTargetStep(cfg, s, name, port, t, NO_FAULTS).0;
            && Agreed(cfg, s') && Entry(name, ip, port, t) in Entries(s'.store)
            && (forall n :: n in s.store && n != name ==> n in s'.store && s'.store[n] == s.store[n])
            && Pairs(s'.kernel) == Pairs(s.kernel) + {PairOf(cfg, Entry(name, ip, port, t))}
  {
    AddTargetKeepsAgreed(cfg, s, name, port, t, NO_FAULTS);
    AddStores(cfg, s, name, port, t);
    AddedEntry(cfg, s.store, name, port, t);
  }

  /** One address requested for "a" and for "b", then a target on the same port of each. */
  lemma BothShareAService(cfg: Config, s: State, ip: string, port: int, t: Target, u: Target)
    requires Agreed(cfg, s) && Pairs(s.kernel) == {} && t.protocol == u.protocol
    requires s.store == map["a" := LbInfo("a", ip, map[]), "b" := LbInfo("b", ip, map[])]
    requires KeyOfDestination(ToIpvsDestination(cfg, t)) != KeyOfDestination(ToIpvsDestination(cfg, u))
    ensures var s' := AddTargetStep(cfg, AddTargetStep(cfg, s, "a", port, t, NO_FAULTS).0, "b", port, u, NO_FAULTS).0;
            && Agreed(cfg, s')
            && Entry("a", ip, port, t) in Entries(s'.store) && Entry("b", ip, port, u) in Entries(s'.store)
  {
    var s1 := AddTargetStep(cfg, s, "a", port, t, NO_FAULTS).0;
    FirstTarget(cfg, s, "a", ip, port, t);
    FirstTarget(cfg, s1, "b", ip, port, u);
    var s2 := AddTargetStep(cfg, s1, "b", port, u, NO_FAULTS).0;
    EntryIsStored(s1.store, Entry("a", ip, port, t));
    StoredEntry(s2.store, "a", port, t);
  }

  /** A load balancer created at a requested address of the CIDR, in an agreed state. */
  lemma CreatedAt(cfg: Config, s: State, name: string, ip: string)
    requires ValidConfig(cfg) && Agreed(cfg, s) && name !in s.store && ip != "" && InCidr(cfg.cidr, cfg.parse(ip))
    ensures var s' := CreateStep(cfg, s, name, ip, NO_FAULTS).0;
            && Agreed(cfg, s') && s'.kernel == s.kernel && s'.store == s.store[name := LbInfo(name, ip, map[])]
  {
    CreateKeepsAgreed(cfg, s, name, ip, NO_FAULTS);
  }

  /** From an empty system: both load balancers are created with the same address, which the server allows; after
      a target on the same port of each, deleting "a" takes away the destination that "b" still asks for. From then
      on DelTarget of the target of "b" answers 16 and keeps it. */
  lemma SharedAddressBreaksAgreement(cfg: Config, s: State, ip: string, port: int, t: Target, u: Target)
    requires ValidConfig(cfg) && Empty(s) && ip != "" && InCidr(cfg.cidr, cfg.parse(ip)) && t.protocol == u.protocol
    requires KeyOfDestination(ToIpvsDestination(cfg, t)) != KeyOfDestination(ToIpvsDestination(cfg, u))
    ensures var s1 := CreateStep(cfg, s, "a", ip, NO_FAULTS).0;
            var s2 := CreateStep(cfg, s1, "b", ip, NO_FAULTS).0;
            var s3 := AddTargetStep(cfg, s2, "a", port, t, NO_FAULTS).0;
            var s4 := AddTargetStep(cfg, s3, "b", port, u, NO_FAULTS).0;
            var s5 := DeleteStep(cfg, s4, "a").0;
            && Agreed(cfg, s4) && !Agreed(cfg, s5)
            && DelTargetStep(cfg, s5, "b", port, u) == (s5, Code(16)) && Stored(s5, "b", port, u)
  {
    var s1 := CreateStep(cfg, s, "a", ip, NO_FAULTS).0;
    var s2 := CreateStep(cfg, s1, "b", ip, NO_FAULTS).0;
    EmptyAgrees(cfg, s);
    CreatedAt(cfg, s, "a", ip);
    CreatedAt(cfg, s1, "b", ip);
    BothShareAService(cfg, s2, ip, port, t, u);
    var s4 := AddTargetStep(cfg, AddTargetStep(cfg, s2, "a", port, t, NO_FAULTS).0, "b", port, u, NO_FAULTS).0;
    SharedServiceDelete(cfg, s4, Entry("a", ip, port, t), Entry("b", ip, port, u));
    LostTarget(cfg, s4, Entry("a", ip, port, t), Entry("b", ip, port, u));
  }

  /** After the other load balancer took the service away, the target is stored but cannot be deleted. */
  lemma LostTarget(cfg: Config, s: State, a: Entry, b: Entry)
    requires a in Entries(s.store) && b in Entries(s.store) && a.name != b.name && SvcOf(cfg, a) == SvcOf(cfg, b)
    ensures var s' := DeleteStep(cfg, s, a.name).0;
            DelTargetStep(cfg, s', b.name, b.port, b.target) == (s', Code(16)) && Stored(s', b.name, b.port, b.target)
  {
    EntryIsStored(s.store, a);
    EntryIsStored(s.store, b);
    ComboKeysAreServices(cfg, a.name, s.store[a.name]);
    assert a in EntriesOf(a.name, s.store[a.name]);
  }

  // ---------- a configuration whose network changed between two starts ----------

  lemma SameParserSameAgreement(cfg: Config, cfg': Config, s: State)
    requires cfg'.parse == cfg.parse && Agreed(cfg, s)
    ensures Agreed(cfg', s)
  {
    var es := Entries(s.store);
    assert forall e :: PairOf(cfg', e) == PairOf(cfg, e);
    assert Image(cfg', es) == Image(cfg, es);
  }

  /** From an empty system: a load balancer with a target, then a start from a wiped kernel under a network that does
      not hold its address. Restore fails, wherever its iteration stops, and the target stays unmapped. */
  lemma ChangedNetworkLosesTargets(cfg: Config, cfg': Config, s: State, ip: string, port: int, t: Target,
                                   link: set<LinkAddr>, done: set<string>)
    requires ValidConfig(cfg) && Empty(s) && ip != "" && InCidr(cfg.cidr, cfg.parse(ip))
    requires cfg'.parse == cfg.parse && !InCidr(cfg'.cidr, cfg.parse(ip))
    ensures var s1 := CreateStep(cfg, s, "a", ip, NO_FAULTS).0;
            var s2 := AddTargetStep(cfg, s1, "a", port, t, NO_FAULTS).0;
            var (s3, ok) := RestoreStep(cfg', State(s2.store, link, map[]), done);
            Agreed(cfg', s2) && !ok && !Agreed(cfg', s3)
  {
    var s1 := CreateStep(cfg, s, "a", ip, NO_FAULTS).0;
    var s2 := AddTargetStep(cfg, s1, "a", port, t, NO_FAULTS).0;
    EmptyAgrees(cfg, s);
    CreatedAt(cfg, s, "a", ip);
    FirstTarget(cfg, s1, "a", ip, port, t);
    SameParserSameAgreement(cfg, cfg', s2);
    RefusedEntryIsLost(cfg', s2, Entry("a", ip, port, t), link, done);
  }

  lemma RefusedEntryIsLost(cfg: Config, s: State, e: Entry, link: set<LinkAddr>, done: set<string>)
    requires Agreed(cfg, s) && e in Entries(s.store) && !InCidr(cfg.cidr, cfg.parse(e.ipAddr))
    ensures var (s', ok) := RestoreStep(cfg, State(s.store, link, map[]), done);
            !ok && !Agreed(cfg, s')
  {
    EntryIsStored(s.store, e);
    RestartAgreedIff(cfg, s, link, true, done);
  }
}
