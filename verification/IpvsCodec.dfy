/** Encoding and decoding of IPVS services and destinations as netlink attribute lists,
    after internal/ipvs/netlink_linux.go. */
module IpvsCodec {
  import opened NetAddr

  const AF_INET := 2
  const AF_INET6 := 10

  type U16 = x: int | 0 <= x < 0x1_0000
  type U32 = x: int | 0 <= x < 0x1_0000_0000

  /** Byte order of the host, which netlink integers follow. */
  datatype Endian = Little | Big

  datatype Attr = Attr(kind: int, value: Bytes)

  datatype Stats = Stats(connections: nat, packetsIn: nat, packetsOut: nat, bytesIn: nat, bytesOut: nat,
                         cps: nat, ppsIn: nat, ppsOut: nat, bpsIn: nat, bpsOut: nat)

  const NO_STATS := Stats(0, 0, 0, 0, 0, 0, 0, 0, 0, 0)

  datatype Service = Service(address: Bytes, protocol: U16, port: U16, fwMark: U32, schedName: Bytes,
                             flags: U32, timeout: U32, netmask: U32, addressFamily: U16,
                             peName: Bytes, stats: Stats)

  datatype Destination = Destination(address: Bytes, port: U16, weight: int, connectionFlags: U32,
                                     addressFamily: U16, upperThreshold: U32, lowerThreshold: U32,
                                     activeConnections: int, inactiveConnections: int, stats: Stats)

  datatype Decoded<+T> = Ok(value: T) | Err

  const SVC_FAMILY := 1
  const SVC_PROTOCOL := 2
  const SVC_ADDRESS := 3
  const SVC_PORT := 4
  const SVC_FWMARK := 5
  const SVC_SCHED := 6
  const SVC_FLAGS := 7
  const SVC_TIMEOUT := 8
  const SVC_NETMASK := 9
  const SVC_STATS := 10
  const SVC_PE := 11

  const DEST_ADDRESS := 1
  const DEST_PORT := 2
  const DEST_FORWARDING := 3
  const DEST_WEIGHT := 4
  const DEST_UPPER := 5
  const DEST_LOWER := 6
  const DEST_ACTIVE := 7
  const DEST_INACTIVE := 8
  const DEST_STATS := 10
  const DEST_FAMILY := 11

  // ---------- integers and strings in attributes ----------

  function LittleBytes(v: nat, n: nat): (b: Bytes)
    ensures |b| == n
  {
    if n == 0 then [] else [v % 256] + LittleBytes(v / 256, n - 1)
  }

  function LittleValue(b: Bytes): (v: nat)
    ensures v < Pow256(|b|)
  {
    if b == [] then 0 else b[0] + 256 * LittleValue(b[1..])
  }

  /** nl.Uint16Attr and nl.Uint32Attr: v in n bytes of host order. */
  function Native(e: Endian, v: nat, n: nat): (b: Bytes)
    ensures |b| == n
  {
    if e.Little? then LittleBytes(v, n) else FromValue(v, n)
  }

  /** native.Uint16, Uint32 and Uint64: the first n bytes in host order. */
  function ReadNative(e: Endian, b: Bytes, n: nat): (v: nat)
    requires n <= |b|
    ensures v < Pow256(n)
  {
    if e.Little? then LittleValue(b[..n]) else Value(b[..n])
  }

  /** nl.BytesToString: everything before the first zero byte. */
  function UpToNul(b: Bytes): Bytes {
    if b == [] || b[0] == 0 then [] else [b[0]] + UpToNul(b[1..])
  }

  predicate IsZeros(b: Bytes) {
    forall i :: 0 <= i < |b| ==> b[i] == 0
  }

  function RawIPData(ip: Bytes): Bytes {
    if |ip| <= 4 || To4(ip) != [] then To4(ip) else ip
  }

  /** The address family that matches an address. */
  function FamilyOf(ip: Bytes): U16 {
    if To4(ip) == [] then AF_INET6 else AF_INET
  }

  function ParseIP(ip: Bytes, family: int): Option<Bytes>
    requires (family == AF_INET ==> |ip| >= 4) && (family == AF_INET6 ==> |ip| >= 16)
  {
    if family == AF_INET then Some(ip[..4])
    else if family == AF_INET6 then Some(ip[..16])
    else None
  }

  function GetIPFamily(address: Bytes): Option<int>
    requires address == [] || |address| >= 4
  {
    if |address| == 4 then Some(AF_INET)
    else if IsZeros(address) then None
    else if !IsZeros(address[..4]) && IsZeros(address[4..]) then Some(AF_INET)
    else Some(AF_INET6)
  }

  // ---------- encoding ----------

  function ServiceAttrs(e: Endian, s: Service): seq<Attr> {
    [Attr(SVC_FAMILY, Native(e, s.addressFamily, 2))]
    + (if s.fwMark != 0
       then [Attr(SVC_FWMARK, Native(e, s.fwMark, 4))]
       else [Attr(SVC_PROTOCOL, Native(e, s.protocol, 2)),
             Attr(SVC_ADDRESS, RawIPData(s.address)),
             Attr(SVC_PORT, FromValue(s.port, 2))])
    + [Attr(SVC_SCHED, s.schedName + [0])]
    + (if s.peName != [] then [Attr(SVC_PE, s.peName + [0])] else [])
    + [Attr(SVC_FLAGS, Native(e, s.flags, 4) + Native(e, 0xFFFF_FFFF, 4)),
       Attr(SVC_TIMEOUT, Native(e, s.timeout, 4)),
       Attr(SVC_NETMASK, Native(e, s.netmask, 4))]
  }

  function DestinationAttrs(e: Endian, d: Destination): seq<Attr> {
    [Attr(DEST_ADDRESS, RawIPData(d.address)),
     Attr(DEST_PORT, FromValue(d.port, 2)),
     Attr(DEST_FORWARDING, Native(e, d.connectionFlags % 8, 4)),
     Attr(DEST_WEIGHT, Native(e, d.weight % 0x1_0000_0000, 4)),
     Attr(DEST_UPPER, Native(e, d.upperThreshold, 4)),
     Attr(DEST_LOWER, Native(e, d.lowerThreshold, 4))]
  }

  // ---------- decoding ----------

  /** The value of the last attribute of a kind. */
  function Last(attrs: seq<Attr>, kind: int): Option<Bytes> {
    if attrs == [] then None
    else
      var n := |attrs| - 1;
      if attrs[n].kind == kind then Some(attrs[n].value) else Last(attrs[..n], kind)
  }

  /** An integer field: zero when its attribute is absent. */
  function Num(e: Endian, v: Option<Bytes>, n: nat): (r: nat)
    ensures r < Pow256(n)
  {
    if v.Some? && |v.value| >= n then ReadNative(e, v.value, n) else 0
  }

  function StatsOf(e: Endian, attrs: seq<Attr>): Stats {
    Stats(Num(e, Last(attrs, 1), 4), Num(e, Last(attrs, 2), 4), Num(e, Last(attrs, 3), 4),
          Num(e, Last(attrs, 4), 8), Num(e, Last(attrs, 5), 8), Num(e, Last(attrs, 6), 4),
          Num(e, Last(attrs, 7), 4), Num(e, Last(attrs, 8), 4), Num(e, Last(attrs, 9), 4),
          Num(e, Last(attrs, 10), 4))
  }

  /** nl.ParseRouteAttr, the netlink library's splitting of a nested attribute. */
  type Parser = Bytes -> Option<seq<Attr>>

  function StatsField(e: Endian, parse: Parser, v: Option<Bytes>): Stats {
    if v.Some? && parse(v.value).Some? then StatsOf(e, parse(v.value).value) else NO_STATS
  }

  /** Some stats attribute of the given kind does not parse. */
  predicate StatsBroken(parse: Parser, attrs: seq<Attr>, kind: int) {
    exists i :: 0 <= i < |attrs| && attrs[i].kind == kind && parse(attrs[i].value).None?
  }

  /** Every field of a service but its address. */
  function ServiceFields(e: Endian, parse: Parser, attrs: seq<Attr>): Service {
    Service([], Num(e, Last(attrs, SVC_PROTOCOL), 2), Num(Big, Last(attrs, SVC_PORT), 2),
            Num(e, Last(attrs, SVC_FWMARK), 4), UpToNul(Last(attrs, SVC_SCHED).Or([])),
            Num(e, Last(attrs, SVC_FLAGS), 4), Num(e, Last(attrs, SVC_TIMEOUT), 4),
            Num(e, Last(attrs, SVC_NETMASK), 4), Num(e, Last(attrs, SVC_FAMILY), 2),
            [], StatsField(e, parse, Last(attrs, SVC_STATS)))
  }

  predicate AddressSized(address: Option<Bytes>, family: int) {
    address.Some? ==> (family == AF_INET ==> |address.value| >= 4) && (family == AF_INET6 ==> |address.value| >= 16)
  }

  /** What assembleService makes of a list, field by field: the last attribute of a kind counts, and
      the address is read under the family whatever their order. */
  function ServiceOf(e: Endian, parse: Parser, attrs: seq<Attr>): Decoded<Service>
    requires AddressSized(Last(attrs, SVC_ADDRESS), Num(e, Last(attrs, SVC_FAMILY), 2))
  {
    var s := ServiceFields(e, parse, attrs);
    var address := Last(attrs, SVC_ADDRESS);
    if StatsBroken(parse, attrs, SVC_STATS) then Err
    else if address.None? then Ok(s)
    else match ParseIP(address.value, s.addressFamily)
      case None => Err
      case Some(ip) => Ok(s.(address := ip))
  }

  function DestinationFields(e: Endian, parse: Parser, attrs: seq<Attr>): Destination {
    Destination([], Num(Big, Last(attrs, DEST_PORT), 2), Num(e, Last(attrs, DEST_WEIGHT), 2),
                Num(e, Last(attrs, DEST_FORWARDING), 4), Num(e, Last(attrs, DEST_FAMILY), 2),
                Num(e, Last(attrs, DEST_UPPER), 4), Num(e, Last(attrs, DEST_LOWER), 4),
                Num(e, Last(attrs, DEST_ACTIVE), 4), Num(e, Last(attrs, DEST_INACTIVE), 4),
                StatsField(e, parse, Last(attrs, DEST_STATS)))
  }

  /** The destination address is 4 or 16 bytes, and 16 under an explicit IPv6 family. */
  predicate DestAddressSized(address: Option<Bytes>, family: int) {
    address.Some? ==> (|address.value| == 4 || |address.value| == 16) && (family == AF_INET6 ==> |address.value| == 16)
  }

  function DestinationOf(e: Endian, parse: Parser, attrs: seq<Attr>): Decoded<Destination>
    requires DestAddressSized(Last(attrs, DEST_ADDRESS), Num(e, Last(attrs, DEST_FAMILY), 2))
  {
    var d := DestinationFields(e, parse, attrs);
    var address := Last(attrs, DEST_ADDRESS);
    if StatsBroken(parse, attrs, DEST_STATS) then Err
    else
      var family := if d.addressFamily != 0 then Some(d.addressFamily) else GetIPFamily(address.Or([]));
      if family.None? then Err
      else if address.None? then Ok(d.(addressFamily := family.value))
      else match ParseIP(address.value, family.value)
        case None => Err
        case Some(ip) => Ok(d.(addressFamily := family.value, address := ip))
  }

  // ---------- the decoding loops ----------

  function MinStatSize(kind: int): nat {
    if kind == 4 || kind == 5 then 8 else if 1 <= kind <= 10 then 4 else 0
  }

  predicate StatsSized(attrs: seq<Attr>) {
    forall a :: a in attrs ==> |a.value| >= MinStatSize(a.kind)
  }

  function MinServiceSize(kind: int): nat {
    if kind == SVC_FAMILY || kind == SVC_PROTOCOL || kind == SVC_PORT then 2
    else if kind == SVC_FWMARK || SVC_FLAGS <= kind <= SVC_NETMASK then 4
    else 0
  }

  function MinDestSize(kind: int): nat {
    if kind == DEST_PORT || kind == DEST_FAMILY || kind == DEST_WEIGHT then 2
    else if DEST_FORWARDING <= kind <= DEST_INACTIVE then 4
    else 0
  }

  /** Each fixed-size attribute is as long as its reader needs: the decoder indexes without checking. */
  ghost predicate WellSized(parse: Parser, attrs: seq<Attr>, minSize: int -> nat, statsKind: int) {
    forall a :: a in attrs ==>
      |a.value| >= minSize(a.kind) &&
      (a.kind == statsKind && parse(a.value).Some? ==> StatsSized(parse(a.value).value))
  }

  lemma LastSnocAt(attrs: seq<Attr>, i: nat, k: int)
    requires i < |attrs|
    ensures Last(attrs[..i + 1], k) == if attrs[i].kind == k then Some(attrs[i].value) else Last(attrs[..i], k)
  {
    var p := attrs[..i + 1];
    assert |p| - 1 == i && p[i] == attrs[i] && p[..i] == attrs[..i];
  }

  lemma LastSnoc(attrs: seq<Attr>, i: nat)
    requires i < |attrs|
    ensures forall k :: Last(attrs[..i + 1], k)
              == if attrs[i].kind == k then Some(attrs[i].value) else Last(attrs[..i], k)
  {
    var p := attrs[..i + 1];
    forall k
      ensures Last(p, k) == if attrs[i].kind == k then Some(attrs[i].value) else Last(attrs[..i], k)
    {
      LastSnocAt(attrs, i, k);
    }
  }

  lemma BrokenSnoc(parse: Parser, attrs: seq<Attr>, i: nat, kind: int)
    requires i < |attrs|
    ensures StatsBroken(parse, attrs[..i + 1], kind)
            <==> StatsBroken(parse, attrs[..i], kind) || (attrs[i].kind == kind && parse(attrs[i].value).None?)
    ensures StatsBroken(parse, attrs[..i + 1], kind) ==> StatsBroken(parse, attrs, kind)
  {
    var p, q := attrs[..i], attrs[..i + 1];
    if j :| 0 <= j < i && p[j].kind == kind && parse(p[j].value).None? {
      assert q[j] == p[j];
    }
    if j :| 0 <= j <= i && q[j].kind == kind && parse(q[j].value).None? {
      assert attrs[j] == q[j] && (j < i ==> p[j] == q[j]);
    }
    if attrs[i].kind == kind && parse(attrs[i].value).None? {
      assert q[i] == attrs[i];
    }
  }

  method AssembleStats(e: Endian, parse: Parser, msg: Bytes) returns (r: Decoded<Stats>)
    requires parse(msg).Some? ==> StatsSized(parse(msg).value)
    ensures r == if parse(msg).None? then Err else Ok(StatsOf(e, parse(msg).value))
  {
    if parse(msg).None? {
      return Err;
    }
    var attrs := parse(msg).value;
    var s := NO_STATS;
    for i := 0 to |attrs|
      invariant s == StatsOf(e, attrs[..i])
    {
      LastSnoc(attrs, i);
      var a := attrs[i];
      assert a in attrs;
      match a.kind
      case 1 => s := s.(connections := ReadNative(e, a.value, 4));
      case 2 => s := s.(packetsIn := ReadNative(e, a.value, 4));
      case 3 => s := s.(packetsOut := ReadNative(e, a.value, 4));
      case 4 => s := s.(bytesIn := ReadNative(e, a.value, 8));
      case 5 => s := s.(bytesOut := ReadNative(e, a.value, 8));
      case 6 => s := s.(cps := ReadNative(e, a.value, 4));
      case 7 => s := s.(ppsIn := ReadNative(e, a.value, 4));
      case 8 => s := s.(ppsOut := ReadNative(e, a.value, 4));
      case 9 => s := s.(bpsIn := ReadNative(e, a.value, 4));
      case 10 => s := s.(bpsOut := ReadNative(e, a.value, 4));
      case _ =>
    }
    assert attrs[..|attrs|] == attrs;
    return Ok(s);
  }

  /** The switch of assembleService for a fixed field. */
  function SetServiceField(e: Endian, s: Service, a: Attr): Service
    requires |a.value| >= MinServiceSize(a.kind)
  {
    if a.kind == SVC_FAMILY then s.(addressFamily := ReadNative(e, a.value, 2)) else
    if a.kind == SVC_PROTOCOL then s.(protocol := ReadNative(e, a.value, 2)) else
    if a.kind == SVC_PORT then s.(port := ReadNative(Big, a.value, 2)) else
    if a.kind == SVC_FWMARK then s.(fwMark := ReadNative(e, a.value, 4)) else
    if a.kind == SVC_SCHED then s.(schedName := UpToNul(a.value)) else
    if a.kind == SVC_FLAGS then s.(flags := ReadNative(e, a.value, 4)) else
    if a.kind == SVC_TIMEOUT then s.(timeout := ReadNative(e, a.value, 4)) else
    if a.kind == SVC_NETMASK then s.(netmask := ReadNative(e, a.value, 4)) else
    s
  }

  lemma ServiceFieldsSnoc(e: Endian, parse: Parser, attrs: seq<Attr>, i: nat)
    requires i < |attrs| && |attrs[i].value| >= MinServiceSize(attrs[i].kind)
    ensures var now, a := ServiceFields(e, parse, attrs[..i]), attrs[i];
            ServiceFields(e, parse, attrs[..i + 1])
            == if a.kind == SVC_STATS then now.(stats := StatsField(e, parse, Some(a.value)))
               else SetServiceField(e, now, a)
  {
    LastSnocAt(attrs, i, SVC_FAMILY);
    LastSnocAt(attrs, i, SVC_PROTOCOL);
    LastSnocAt(attrs, i, SVC_PORT);
    LastSnocAt(attrs, i, SVC_FWMARK);
    LastSnocAt(attrs, i, SVC_SCHED);
    LastSnocAt(attrs, i, SVC_FLAGS);
    LastSnocAt(attrs, i, SVC_TIMEOUT);
    LastSnocAt(attrs, i, SVC_NETMASK);
    LastSnocAt(attrs, i, SVC_STATS);
  }

  /** The loop of assembleService: every field but the address, which it only sets aside. */
  method CollectService(e: Endian, parse: Parser, attrs: seq<Attr>)
    returns (fields: Option<Service>, address: Option<Bytes>)
    requires WellSized(parse, attrs, MinServiceSize, SVC_STATS)
    ensures fields.None? <==> StatsBroken(parse, attrs, SVC_STATS)
    ensures fields.Some? ==> fields.value == ServiceFields(e, parse, attrs) && address == Last(attrs, SVC_ADDRESS)
  {
    var s := Service([], 0, 0, 0, [], 0, 0, 0, 0, [], NO_STATS);
    address := None;
    for i := 0 to |attrs|
      invariant s == ServiceFields(e, parse, attrs[..i])
      invariant address == Last(attrs[..i], SVC_ADDRESS)
      invariant !StatsBroken(parse, attrs[..i], SVC_STATS)
    {
      var a := attrs[i];
      assert a in attrs;
      LastSnocAt(attrs, i, SVC_ADDRESS);
      BrokenSnoc(parse, attrs, i, SVC_STATS);
      ServiceFieldsSnoc(e, parse, attrs, i);
      if a.kind == SVC_ADDRESS {
        address := Some(a.value);
      } else if a.kind == SVC_STATS {
        var stats := AssembleStats(e, parse, a.value);
        if stats.Err? {
          return None, None;
        }
        s := s.(stats := stats.value);
      } else {
        s := SetServiceField(e, s, a);
      }
    }
    assert attrs[..|attrs|] == attrs;
    return Some(s), address;
  }

  method AssembleService(e: Endian, parse: Parser, attrs: seq<Attr>) returns (r: Decoded<Service>)
    requires WellSized(parse, attrs, MinServiceSize, SVC_STATS)
    requires AddressSized(Last(attrs, SVC_ADDRESS), Num(e, Last(attrs, SVC_FAMILY), 2))
    ensures r == ServiceOf(e, parse, attrs)
  {
    var fields, address := CollectService(e, parse, attrs);
    if fields.None? {
      return Err;
    }
    var s := fields.value;
    if address.Some? {
      var ip := ParseIP(address.value, s.addressFamily);
      if ip.None? {
        return Err;
      }
      s := s.(address := ip.value);
    }
    return Ok(s);
  }

  /** The switch of assembleDestination for a fixed field. */
  function SetDestinationField(e: Endian, d: Destination, a: Attr): Destination
    requires |a.value| >= MinDestSize(a.kind)
  {
    if a.kind == DEST_FAMILY then d.(addressFamily := ReadNative(e, a.value, 2)) else
    if a.kind == DEST_PORT then d.(port := ReadNative(Big, a.value, 2)) else
    if a.kind == DEST_FORWARDING then d.(connectionFlags := ReadNative(e, a.value, 4)) else
    if a.kind == DEST_WEIGHT then d.(weight := ReadNative(e, a.value, 2)) else
    if a.kind == DEST_UPPER then d.(upperThreshold := ReadNative(e, a.value, 4)) else
    if a.kind == DEST_LOWER then d.(lowerThreshold := ReadNative(e, a.value, 4)) else
    if a.kind == DEST_ACTIVE then d.(activeConnections := ReadNative(e, a.value, 4)) else
    if a.kind == DEST_INACTIVE then d.(inactiveConnections := ReadNative(e, a.value, 4)) else
    d
  }

  lemma DestinationFieldsSnoc(e: Endian, parse: Parser, attrs: seq<Attr>, i: nat)
    requires i < |attrs| && |attrs[i].value| >= MinDestSize(attrs[i].kind)
    ensures var now, a := DestinationFields(e, parse, attrs[..i]), attrs[i];
            DestinationFields(e, parse, attrs[..i + 1])
            == if a.kind == DEST_STATS then now.(stats := StatsField(e, parse, Some(a.value)))
               else SetDestinationField(e, now, a)
  {
    LastSnocAt(attrs, i, DEST_FAMILY);
    LastSnocAt(attrs, i, DEST_PORT);
    LastSnocAt(attrs, i, DEST_FORWARDING);
    LastSnocAt(attrs, i, DEST_WEIGHT);
    LastSnocAt(attrs, i, DEST_UPPER);
    LastSnocAt(attrs, i, DEST_LOWER);
    LastSnocAt(attrs, i, DEST_ACTIVE);
    LastSnocAt(attrs, i, DEST_INACTIVE);
    LastSnocAt(attrs, i, DEST_STATS);
  }

  /** The loop of assembleDestination: every field but the address, which it only sets aside. */
  method CollectDestination(e: Endian, parse: Parser, attrs: seq<Attr>)
    returns (fields: Option<Destination>, address: Option<Bytes>)
    requires WellSized(parse, attrs, MinDestSize, DEST_STATS)
    ensures fields.None? <==> StatsBroken(parse, attrs, DEST_STATS)
    ensures fields.Some? ==> fields.value == DestinationFields(e, parse, attrs) && address == Last(attrs, DEST_ADDRESS)
  {
    var d := Destination([], 0, 0, 0, 0, 0, 0, 0, 0, NO_STATS);
    address := None;
    for i := 0 to |attrs|
      invariant d == DestinationFields(e, parse, attrs[..i])
      invariant address == Last(attrs[..i], DEST_ADDRESS)
      invariant !StatsBroken(parse, attrs[..i], DEST_STATS)
    {
      var a := attrs[i];
      assert a in attrs;
      LastSnocAt(attrs, i, DEST_ADDRESS);
      BrokenSnoc(parse, attrs, i, DEST_STATS);
      DestinationFieldsSnoc(e, parse, attrs, i);
      if a.kind == DEST_ADDRESS {
        address := Some(a.value);
      } else if a.kind == DEST_STATS {
        var stats := AssembleStats(e, parse, a.value);
        if stats.Err? {
          return None, None;
        }
        d := d.(stats := stats.value);
      } else {
        d := SetDestinationField(e, d, a);
      }
    }
    assert attrs[..|attrs|] == attrs;
    return Some(d), address;
  }

  method AssembleDestination(e: Endian, parse: Parser, attrs: seq<Attr>) returns (r: Decoded<Destination>)
    requires WellSized(parse, attrs, MinDestSize, DEST_STATS)
    requires DestAddressSized(Last(attrs, DEST_ADDRESS), Num(e, Last(attrs, DEST_FAMILY), 2))
    ensures r == DestinationOf(e, parse, attrs)
  {
    var fields, address := CollectDestination(e, parse, attrs);
    if fields.None? {
      return Err;
    }
    var d := fields.value;
    if d.addressFamily == 0 {
      var family := GetIPFamily(address.Or([]));
      if family.None? {
        return Err;
      }
      d := d.(addressFamily := family.value);
    }
    if address.Some? {
      var ip := ParseIP(address.value, d.addressFamily);
      if ip.None? {
        return Err;
      }
      d := d.(address := ip.value);
    }
    return Ok(d);
  }
}
