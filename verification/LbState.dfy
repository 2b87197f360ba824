/** The load balancer server of internal/loadbalancer/impl.go as a state and its steps: the store of load
    balancers, the addresses on the external link, and the kernel's IPVS table. */
module LbState {
  import opened NetAddr
  import opened CidrBlocks
  import opened Ipam
  import opened IpvsCodec

  // Codes of Error.Code
  const ERR_SUCCESS := 0
  const ERR_NO_SUCH_LB := 1
  const ERR_NO_SUCH_SERVICE := 2
  const ERR_NO_SUCH_IP := 4
  const ERR_ADD_DESTINATION_FAILED := 8
  const ERR_DEL_DESTINATION_FAILED := 16
  const ERR_TARGET_ALREADY_MAPPED := 32
  const ERR_TARGET_NOT_MAPPED := 64

  const TCP := 0
  const UDP := 1
  const IPPROTO_TCP: U16 := 6
  const IPPROTO_UDP: U16 := 17

  /** Protocol is an open enumeration and ports are int32 on the wire, so both are integers here. */
  datatype Target = Target(protocol: int, dstIP: string, dstPort: int)
  datatype LbInfo = LbInfo(name: string, ipAddr: string, targets: map<int, seq<Target>>)

  datatype SvcKey = SvcKey(family: U16, protocol: U16, address: Bytes, port: U16)
  datatype DstKey = DstKey(family: U16, address: Bytes, port: U16)
  type Kernel = map<SvcKey, set<DstKey>>

  /** An address on the link: 16 bytes and its mask length. */
  datatype LinkAddr = LinkAddr(ip: Bytes, bits: nat)

  datatype State = State(store: map<string, LbInfo>, link: set<LinkAddr>, kernel: Kernel)

  /** The configuration, with the net package's ParseIP and IP.String as functions. */
  datatype Config = Config(cidr: Cidr, range: Range, parse: string -> Bytes, show: Bytes -> string)

  ghost predicate ValidConfig(cfg: Config) {
    && ValidCidr(cfg.cidr) && ValidRange(cfg.range)
    && InCidr(cfg.cidr, cfg.range.from) && InCidr(cfg.cidr, cfg.range.to)
    && Value(cfg.range.from) < Value(cfg.range.to)
    && (forall s :: cfg.parse(s) == [] || |cfg.parse(s)| == 16)
    && (forall ip :: |ip| == 16 ==> cfg.parse(cfg.show(ip)) == ip)
  }

  ghost predicate ValidLink(link: set<LinkAddr>) {
    forall a :: a in link ==> |a.ip| == 16
  }

  /** A reply: the Code of an Error message, or an RPC error. */
  datatype Reply = Code(code: int) | RpcError

  /** Kernel refusals that the server cannot foresee, for the steps that create things. */
  datatype Faults = Faults(alias: bool, service: bool, destination: bool)

  const NO_FAULTS := Faults(false, false, false)

  // ---------- keys ----------

  function ToIpvsService(cfg: Config, ipAddr: string, srcPort: int, protocol: int): Service {
    var srcIP := cfg.parse(ipAddr);
    Service(srcIP, if protocol == UDP then IPPROTO_UDP else IPPROTO_TCP, srcPort % 0x1_0000, 0, [114, 114],
            0, 0, 0, FamilyOf(srcIP), [], NO_STATS)
  }

  function ToIpvsDestination(cfg: Config, t: Target): Destination {
    var targetIP := cfg.parse(t.dstIP);
    Destination(targetIP, t.dstPort % 0x1_0000, 1, 0, FamilyOf(targetIP), 0, 0, 0, 0, NO_STATS)
  }

  /** The kernel tells services and destinations apart by these fields. */
  function KeyOfService(s: Service): SvcKey {
    SvcKey(s.addressFamily, s.protocol, RawIPData(s.address), s.port)
  }

  function KeyOfDestination(d: Destination): DstKey {
    DstKey(d.addressFamily, RawIPData(d.address), d.port)
  }

  /** The address by which the kernel knows a load balancer's services. */
  function AddressKey(cfg: Config, lb: LbInfo): Bytes {
    RawIPData(cfg.parse(lb.ipAddr))
  }

  // ---------- what the store asks for, what the kernel holds ----------

  datatype Entry = Entry(name: string, ipAddr: string, port: int, target: Target)
  datatype Pair = Pair(svc: SvcKey, dst: DstKey)

  function SvcOf(cfg: Config, e: Entry): SvcKey {
    KeyOfService(ToIpvsService(cfg, e.ipAddr, e.port, e.target.protocol))
  }

  function DstOf(cfg: Config, e: Entry): DstKey {
    KeyOfDestination(ToIpvsDestination(cfg, e.target))
  }

  function PairOf(cfg: Config, e: Entry): Pair {
    Pair(SvcOf(cfg, e), DstOf(cfg, e))
  }

  ghost function EntriesOf(n: string, lb: LbInfo): set<Entry> {
    set p, t | p in lb.targets && t in lb.targets[p] :: Entry(n, lb.ipAddr, p, t)
  }

  ghost function Entries(store: map<string, LbInfo>): set<Entry> {
    set n, e | n in store && e in EntriesOf(n, store[n]) :: e
  }

  ghost function Image(cfg: Config, entries: set<Entry>): set<Pair> {
    set e | e in entries :: PairOf(cfg, e)
  }

  ghost function Services(cfg: Config, entries: set<Entry>): set<SvcKey> {
    set e | e in entries :: SvcOf(cfg, e)
  }

  ghost function Pairs(kernel: Kernel): set<Pair> {
    set k, d | k in kernel && d in kernel[k] :: Pair(k, d)
  }

  // ---------- invariants ----------

  ghost predicate Injective(cfg: Config, entries: set<Entry>) {
    forall a, b :: a in entries && b in entries && PairOf(cfg, a) == PairOf(cfg, b) ==> a == b
  }

  ghost predicate NoDuplicates(list: seq<Target>) {
    forall i, j :: 0 <= i < j < |list| ==> list[i] != list[j]
  }

  ghost predicate WellShaped(lb: LbInfo) {
    forall p :: p in lb.targets ==> lb.targets[p] != [] && NoDuplicates(lb.targets[p])
  }

  /** Store and kernel agree: the kernel's destinations are exactly the image of the stored targets, and no
      two stored targets share one. Port lists are non-empty and free of duplicates. */
  ghost predicate Agreed(cfg: Config, s: State) {
    && Pairs(s.kernel) == Image(cfg, Entries(s.store))
    && Injective(cfg, Entries(s.store))
    && (forall n :: n in s.store ==> s.store[n].name == n && WellShaped(s.store[n]))
  }

  predicate DeclaredProtocol(protocol: int) {
    protocol == TCP || protocol == UDP
  }

  predicate PortInRange(port: int) {
    0 <= port < 0x1_0000
  }

  ghost function AliasOf(cfg: Config, ipAddr: string): LinkAddr {
    LinkAddr(cfg.parse(ipAddr), cfg.cidr.bits)
  }

  /** One load balancer's address is accepted and aliased, its ports and protocols are in range. */
  ghost predicate Housed(cfg: Config, s: State, lb: LbInfo) {
    && |cfg.parse(lb.ipAddr)| == 16 && InCidr(cfg.cidr, cfg.parse(lb.ipAddr))
    && AliasOf(cfg, lb.ipAddr) in s.link
    && (forall p :: p in lb.targets ==> PortInRange(p))
    && (forall p, t :: p in lb.targets && t in lb.targets[p] ==> DeclaredProtocol(t.protocol))
  }

  /** One address per load balancer, and every load balancer housed. */
  ghost predicate Homes(cfg: Config, s: State) {
    && ValidLink(s.link)
    && (forall m, n :: m in s.store && n in s.store && cfg.parse(s.store[m].ipAddr) == cfg.parse(s.store[n].ipAddr)
                       ==> m == n)
    && (forall n :: n in s.store ==> Housed(cfg, s, s.store[n]))
  }

  ghost predicate Owned(cfg: Config, s: State) {
    Agreed(cfg, s) && Homes(cfg, s)
  }

  // ---------- the steps ----------

  ghost function LinkNumbers(link: set<LinkAddr>): set<nat> {
    set a | a in link :: Value(To16(a.ip))
  }

  ghost function AllocateOnLink(cfg: Config, link: set<LinkAddr>): Option<Bytes>
    requires ValidRange(cfg.range)
  {
    match Allocated(LinkNumbers(link), Value(cfg.range.from), Value(cfg.range.to))
    case None => None
    case Some(v) => Some(FromValue(v, 16))
  }

  ghost function AddAlias(cfg: Config, link: set<LinkAddr>, ipAddr: string, fails: bool): Option<set<LinkAddr>> {
    if !InCidr(cfg.cidr, cfg.parse(ipAddr)) then None
    else if AliasOf(cfg, ipAddr) in link then Some(link)
    else if fails then None
    else Some(link + {AliasOf(cfg, ipAddr)})
  }

  /** The address Create uses: the requested one, or the next free one when none is requested. */
  ghost function ChosenAddress(cfg: Config, s: State, requested: string): Option<string>
    requires ValidRange(cfg.range)
  {
    if requested != "" then Some(requested)
    else match AllocateOnLink(cfg, s.link)
      case None => None
      case Some(ip) => Some(cfg.show(ip))
  }

  ghost function CreateStep(cfg: Config, s: State, name: string, requested: string, f: Faults): (State, Option<LbInfo>)
    requires ValidRange(cfg.range)
  {
    var ip := ChosenAddress(cfg, s, requested);
    if name in s.store || ip.None? then (s, None)
    else
      var link := AddAlias(cfg, s.link, ip.value, f.alias);
      if link.None? then (s, None)
      else
        var lb := LbInfo(name, ip.value, map[]);
        (s.(link := link.value, store := s.store[name := lb]), Some(lb))
  }

  /** mapTarget: the service is created when it is missing, then the destination. */
  datatype Mapping = Mapped | Refused | Failed

  ghost function MapTargetStep(kernel: Kernel, svc: SvcKey, dst: DstKey, f: Faults): (Kernel, Mapping) {
    if svc !in kernel && f.service then (kernel, Failed)
    else
      var k := if svc in kernel then kernel else kernel[svc := {}];
      if f.destination || dst in k[svc] then (k, Refused) else (k[svc := k[svc] + {dst}], Mapped)
  }

  function TargetsAt(lb: LbInfo, port: int): seq<Target> {
    if port in lb.targets then lb.targets[port] else []
  }

  ghost function AddTargetStep(cfg: Config, s: State, name: string, port: int, t: Target, f: Faults): (State, Reply) {
    if name !in s.store then (s, Code(ERR_NO_SUCH_LB))
    else
      var lb := s.store[name];
      if t in TargetsAt(lb, port) then (s, Code(ERR_TARGET_ALREADY_MAPPED))
      else
        var e := Entry(name, lb.ipAddr, port, t);
        var (k, m) := MapTargetStep(s.kernel, SvcOf(cfg, e), DstOf(cfg, e), f);
        match m
        case Failed => (s.(kernel := k), RpcError)
        case Refused => (s.(kernel := k), Code(ERR_ADD_DESTINATION_FAILED))
        case Mapped =>
          var lb' := lb.(targets := lb.targets[port := TargetsAt(lb, port) + [t]]);
          (s.(kernel := k, store := s.store[name := lb']), Code(ERR_SUCCESS))
  }

  /** The list without the first occurrence of t. */
  function Without(list: seq<Target>, t: Target): seq<Target> {
    if list == [] then []
    else if list[0] == t then list[1..]
    else [list[0]] + Without(list[1..], t)
  }

  function DropTarget(lb: LbInfo, port: int, t: Target): LbInfo
    requires port in lb.targets
  {
    var rest := Without(lb.targets[port], t);
    lb.(targets := if rest == [] then lb.targets - {port} else lb.targets[port := rest])
  }

  ghost function DelTargetStep(cfg: Config, s: State, name: string, port: int, t: Target): (State, Reply) {
    if name !in s.store then (s, Code(ERR_NO_SUCH_LB))
    else
      var lb := s.store[name];
      if t !in TargetsAt(lb, port) then (s, Code(ERR_TARGET_NOT_MAPPED))
      else
        var e := Entry(name, lb.ipAddr, port, t);
        var svc, dst := SvcOf(cfg, e), DstOf(cfg, e);
        if svc !in s.kernel || dst !in s.kernel[svc] then (s, Code(ERR_DEL_DESTINATION_FAILED))
        else
          var k := s.kernel[svc := s.kernel[svc] - {dst}];
          var k' := if Without(lb.targets[port], t) == [] then k - {svc} else k;
          (s.(kernel := k', store := s.store[name := DropTarget(lb, port, t)]), Code(ERR_SUCCESS))
  }

  /** The (port, protocol) combinations whose services Delete removes. */
  ghost function Combos(lb: LbInfo): set<(int, int)> {
    set p, t | p in lb.targets && t in lb.targets[p] :: (p, t.protocol)
  }

  ghost function ComboKey(cfg: Config, lb: LbInfo, c: (int, int)): SvcKey {
    KeyOfService(ToIpvsService(cfg, lb.ipAddr, c.0, c.1))
  }

  ghost function ComboKeys(cfg: Config, lb: LbInfo, cs: set<(int, int)>): set<SvcKey> {
    set c | c in cs :: ComboKey(cfg, lb, c)
  }

  /** Removing the services of these combinations one by one never misses: each key is in the kernel and
      belongs to one combination only. */
  ghost predicate EachServiceOnce(cfg: Config, kernel: Kernel, lb: LbInfo, cs: set<(int, int)>) {
    && ComboKeys(cfg, lb, cs) <= kernel.Keys
    && (forall c, d :: c in cs && d in cs && ComboKey(cfg, lb, c) == ComboKey(cfg, lb, d) ==> c == d)
  }

  ghost function DeleteStep(cfg: Config, s: State, name: string): (State, Reply) {
    if name !in s.store then (s, Code(ERR_NO_SUCH_LB))
    else
      var lb := s.store[name];
      var alias := AliasOf(cfg, lb.ipAddr);
      var code := (if EachServiceOnce(cfg, s.kernel, lb, Combos(lb)) then 0 else ERR_NO_SUCH_SERVICE)
                  + (if alias in s.link then 0 else ERR_NO_SUCH_IP);
      (State(s.store - {name}, s.link - {alias}, s.kernel - ComboKeys(cfg, lb, Combos(lb))), Code(code))
  }

  /** The destinations that entries ask of one service. */
  ghost function DestsFor(cfg: Config, entries: set<Entry>, svc: SvcKey): set<DstKey> {
    set e | e in entries && SvcOf(cfg, e) == svc :: DstOf(cfg, e)
  }

  ghost function DestsAt(kernel: Kernel, svc: SvcKey): set<DstKey> {
    if svc in kernel then kernel[svc] else {}
  }

  /** The kernel with every entry mapped into it, in whatever order. */
  ghost function Merge(cfg: Config, kernel: Kernel, entries: set<Entry>): Kernel {
    map k | k in kernel.Keys + Services(cfg, entries) ::
      DestsAt(kernel, k) + DestsFor(cfg, entries, k)
  }

  ghost function Aliases(cfg: Config, store: map<string, LbInfo>): set<LinkAddr> {
    set n | n in store :: AliasOf(cfg, store[n].ipAddr)
  }

  /** Every stored address passes the CIDR test. */
  ghost predicate Accepted(cfg: Config, store: map<string, LbInfo>) {
    forall n :: n in store ==> InCidr(cfg.cidr, cfg.parse(store[n].ipAddr))
  }

  /** The names that the store's iterator yields before the first refused address, `order` being all it yields. */
  ghost function BeforeRefusal(cfg: Config, store: map<string, LbInfo>, order: seq<string>): set<string>
    requires forall n :: n in order ==> n in store
  {
    set i | 0 <= i < |order| && (forall j :: 0 <= j <= i ==> InCidr(cfg.cidr, cfg.parse(store[order[j]].ipAddr))) ::
      order[i]
  }

  /** The iterator yields each stored name once. */
  ghost predicate Yields(order: seq<string>, store: map<string, LbInfo>) {
    && (forall n :: n in order <==> n in store)
    && (forall i, j :: 0 <= i < j < |order| ==> order[i] != order[j])
  }

  /** The load balancers that Restore brings back: all of them when every address is accepted; otherwise it stops
      at the first refused one, after those accepted ones, `done`, that its iteration met before. */
  ghost function RestoredPart(cfg: Config, store: map<string, LbInfo>, done: set<string>): map<string, LbInfo> {
    if Accepted(cfg, store) then store
    else map n | n in store && n in done && InCidr(cfg.cidr, cfg.parse(store[n].ipAddr)) :: store[n]
  }

  ghost function RestoreStep(cfg: Config, s: State, done: set<string>): (State, bool) {
    var part := RestoredPart(cfg, s.store, done);
    (s.(link := s.link + Aliases(cfg, part), kernel := Merge(cfg, s.kernel, Entries(part))), Accepted(cfg, s.store))
  }

  /** Restore, when every stored address is accepted. */
  ghost function Restored(cfg: Config, s: State): State {
    s.(link := s.link + Aliases(cfg, s.store), kernel := Merge(cfg, s.kernel, Entries(s.store)))
  }
}
