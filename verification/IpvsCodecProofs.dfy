/** Round trips and order independence of the IPVS attribute codec. */
module IpvsCodecProofs {
  import opened NetAddr
  import opened IpvsCodec

  // ---------- attribute lists ----------

  ghost predicate Distinct(attrs: seq<Attr>) {
    forall i, j :: 0 <= i < j < |attrs| ==> attrs[i].kind != attrs[j].kind
  }

  lemma {:induction false} LastAt(attrs: seq<Attr>, i: nat)
    requires Distinct(attrs) && i < |attrs|
    ensures Last(attrs, attrs[i].kind) == Some(attrs[i].value)
  {
    var n := |attrs| - 1;
    if i < n {
      LastAt(attrs[..n], i);
    }
  }

  lemma {:induction false} LastAbsent(attrs: seq<Attr>, kind: int)
    requires forall i :: 0 <= i < |attrs| ==> attrs[i].kind != kind
    ensures Last(attrs, kind) == None
  {
    if attrs != [] {
      LastAbsent(attrs[..|attrs| - 1], kind);
    }
  }

  lemma {:induction false} LastOccurs(attrs: seq<Attr>, kind: int) returns (i: nat)
    requires Last(attrs, kind).Some?
    ensures i < |attrs| && attrs[i].kind == kind && Last(attrs, kind) == Some(attrs[i].value)
  {
    var n := |attrs| - 1;
    if attrs[n].kind == kind {
      i := n;
    } else {
      i := LastOccurs(attrs[..n], kind);
    }
  }

  lemma PermutedLast(a: seq<Attr>, b: seq<Attr>, kind: int)
    requires Distinct(a) && multiset(a) == multiset(b)
    ensures Last(a, kind) == Last(b, kind)
  {
    if exists i :: 0 <= i < |a| && a[i].kind == kind {
      var i :| 0 <= i < |a| && a[i].kind == kind;
      LastAt(a, i);
      assert a[i] in multiset(b);
      if Last(b, kind).None? {
        var j :| 0 <= j < |b| && b[j] == a[i];
        LastPresent(b, j);
      }
      var j := LastOccurs(b, kind);
      assert b[j] in multiset(a);
      var k :| 0 <= k < |a| && a[k] == b[j];
      assert k == i;
    } else {
      LastAbsent(a, kind);
      forall j | 0 <= j < |b|
        ensures b[j].kind != kind
      {
        assert b[j] in multiset(a);
      }
      LastAbsent(b, kind);
    }
  }

  lemma {:induction false} LastPresent(attrs: seq<Attr>, i: nat)
    requires i < |attrs|
    ensures Last(attrs, attrs[i].kind).Some?
  {
    var n := |attrs| - 1;
    if i < n {
      LastPresent(attrs[..n], i);
    }
  }

  lemma PermutedStatsBroken(parse: Parser, a: seq<Attr>, b: seq<Attr>, kind: int)
    requires multiset(a) == multiset(b) && StatsBroken(parse, a, kind)
    ensures StatsBroken(parse, b, kind)
  {
    var i :| 0 <= i < |a| && a[i].kind == kind && parse(a[i].value).None?;
    assert a[i] in multiset(b);
    var j :| 0 <= j < |b| && b[j] == a[i];
  }

  /** Any order of the same attributes decodes to the same service. */
  lemma ServiceOrderIrrelevant(e: Endian, parse: Parser, a: seq<Attr>, b: seq<Attr>)
    requires Distinct(a) && multiset(a) == multiset(b)
    requires AddressSized(Last(a, SVC_ADDRESS), Num(e, Last(a, SVC_FAMILY), 2))
    ensures AddressSized(Last(b, SVC_ADDRESS), Num(e, Last(b, SVC_FAMILY), 2))
    ensures ServiceOf(e, parse, a) == ServiceOf(e, parse, b)
  {
    forall k ensures Last(a, k) == Last(b, k) { PermutedLast(a, b, k); }
    assert StatsBroken(parse, a, SVC_STATS) <==> StatsBroken(parse, b, SVC_STATS) by {
      if StatsBroken(parse, a, SVC_STATS) { PermutedStatsBroken(parse, a, b, SVC_STATS); }
      if StatsBroken(parse, b, SVC_STATS) { PermutedStatsBroken(parse, b, a, SVC_STATS); }
    }
  }

  /** Any order of the same attributes decodes to the same destination. */
  lemma DestinationOrderIrrelevant(e: Endian, parse: Parser, a: seq<Attr>, b: seq<Attr>)
    requires Distinct(a) && multiset(a) == multiset(b)
    requires DestAddressSized(Last(a, DEST_ADDRESS), Num(e, Last(a, DEST_FAMILY), 2))
    ensures DestAddressSized(Last(b, DEST_ADDRESS), Num(e, Last(b, DEST_FAMILY), 2))
    ensures DestinationOf(e, parse, a) == DestinationOf(e, parse, b)
  {
    forall k ensures Last(a, k) == Last(b, k) { PermutedLast(a, b, k); }
    assert StatsBroken(parse, a, DEST_STATS) <==> StatsBroken(parse, b, DEST_STATS) by {
      if StatsBroken(parse, a, DEST_STATS) { PermutedStatsBroken(parse, a, b, DEST_STATS); }
      if StatsBroken(parse, b, DEST_STATS) { PermutedStatsBroken(parse, b, a, DEST_STATS); }
    }
  }

  // ---------- integers ----------

  lemma {:induction false} LittleRoundTrip(v: nat, n: nat)
    requires v < Pow256(n)
    ensures LittleValue(LittleBytes(v, n)) == v
  {
    if n > 0 {
      LittleRoundTrip(v / 256, n - 1);
      assert LittleBytes(v, n)[1..] == LittleBytes(v / 256, n - 1);
    }
  }

  lemma NativeRoundTrip(e: Endian, v: nat, n: nat)
    requires v < Pow256(n)
    ensures Num(e, Some(Native(e, v, n)), n) == v
  {
    assert Native(e, v, n)[..n] == Native(e, v, n);
    LittleRoundTrip(v, n);
    ValueOfFromValue(v, n);
  }

  /** The flags attribute is two words; the reader takes the first. */
  lemma FlagsRoundTrip(e: Endian, flags: U32)
    ensures Num(e, Some(Native(e, flags, 4) + Native(e, 0xFFFF_FFFF, 4)), 4) == flags
  {
    var w := Native(e, flags, 4);
    assert (w + Native(e, 0xFFFF_FFFF, 4))[..4] == w == w[..4];
    NativeRoundTrip(e, flags, 4);
  }

  /** A weight is written as four bytes and read as two: the low half on a little-endian host,
      the high half on a big-endian one. */
  lemma WeightRoundTrip(e: Endian, w: U32)
    ensures Num(e, Some(Native(e, w, 4)), 2) == if e.Little? then w % 0x1_0000 else w / 0x1_0000
  {
    if e.Little? {
      assert LittleBytes(w, 4)[..2] == [w % 256, w / 256 % 256] by {
        assert LittleBytes(w, 4) == [w % 256] + ([w / 256 % 256] + LittleBytes(w / 256 / 256, 2));
      }
      assert LittleValue([w % 256, w / 256 % 256]) == w % 256 + 256 * LittleValue([w / 256 % 256]) by {
        assert [w % 256, w / 256 % 256][1..] == [w / 256 % 256];
      }
    } else {
      assert FromValue(w, 4)[..2] == FromValue(w / 0x1_0000, 2) by {
        assert FromValue(w, 4) == (FromValue(w / 256 / 256, 2) + [w / 256 % 256]) + [w % 256];
      }
      ValueOfFromValue(w / 0x1_0000, 2);
    }
  }

  lemma {:induction false} NulEndsName(name: Bytes)
    ensures UpToNul(name + [0]) == UpToNul(name)
    ensures 0 !in name ==> UpToNul(name) == name
  {
    if name != [] {
      assert (name + [0])[0] == name[0] && (name + [0])[1..] == name[1..] + [0];
      NulEndsName(name[1..]);
      assert name == [name[0]] + name[1..];
    }
  }

  // ---------- service round trip ----------

  /** A service as it comes back: no PE name, no stats, and no address, protocol or port under a mark. */
  function Recovered(s: Service): Service {
    var r := s.(peName := [], stats := NO_STATS, schedName := UpToNul(s.schedName));
    if s.fwMark != 0 then r.(protocol := 0, address := [], port := 0) else r.(address := RawIPData(s.address))
  }

  lemma ServiceAttrsDistinct(e: Endian, s: Service)
    ensures Distinct(ServiceAttrs(e, s))
    ensures forall i :: 0 <= i < |ServiceAttrs(e, s)| ==> ServiceAttrs(e, s)[i].kind != SVC_STATS
  {}

  lemma LastIs(attrs: seq<Attr>, a: Attr)
    requires Distinct(attrs) && a in attrs
    ensures Last(attrs, a.kind) == Some(a.value)
  {}

  lemma ServiceLookups(e: Endian, s: Service)
    ensures var l := ServiceAttrs(e, s);
            && Last(l, SVC_FAMILY) == Some(Native(e, s.addressFamily, 2))
            && Last(l, SVC_SCHED) == Some(s.schedName + [0])
            && Last(l, SVC_FLAGS) == Some(Native(e, s.flags, 4) + Native(e, 0xFFFF_FFFF, 4))
            && Last(l, SVC_TIMEOUT) == Some(Native(e, s.timeout, 4))
            && Last(l, SVC_NETMASK) == Some(Native(e, s.netmask, 4))
            && Last(l, SVC_STATS) == None
  {
    var l := ServiceAttrs(e, s);
    ServiceAttrsDistinct(e, s);
    LastIs(l, Attr(SVC_FAMILY, Native(e, s.addressFamily, 2)));
    LastIs(l, Attr(SVC_SCHED, s.schedName + [0]));
    LastIs(l, Attr(SVC_FLAGS, Native(e, s.flags, 4) + Native(e, 0xFFFF_FFFF, 4)));
    LastIs(l, Attr(SVC_TIMEOUT, Native(e, s.timeout, 4)));
    LastIs(l, Attr(SVC_NETMASK, Native(e, s.netmask, 4)));
    LastAbsent(l, SVC_STATS);
  }

  /** A service is named either by its firewall mark or by protocol, address and port. */
  lemma IdentityLookups(e: Endian, s: Service)
    ensures var l := ServiceAttrs(e, s);
            && Last(l, SVC_FWMARK) == (if s.fwMark != 0 then Some(Native(e, s.fwMark, 4)) else None)
            && Last(l, SVC_PROTOCOL) == (if s.fwMark != 0 then None else Some(Native(e, s.protocol, 2)))
            && Last(l, SVC_ADDRESS) == (if s.fwMark != 0 then None else Some(RawIPData(s.address)))
            && Last(l, SVC_PORT) == (if s.fwMark != 0 then None else Some(Native(Big, s.port, 2)))
  {
    var l := ServiceAttrs(e, s);
    ServiceAttrsDistinct(e, s);
    if s.fwMark != 0 {
      LastIs(l, Attr(SVC_FWMARK, Native(e, s.fwMark, 4)));
      LastAbsent(l, SVC_PROTOCOL);
      LastAbsent(l, SVC_ADDRESS);
      LastAbsent(l, SVC_PORT);
    } else {
      LastAbsent(l, SVC_FWMARK);
      LastIs(l, Attr(SVC_PROTOCOL, Native(e, s.protocol, 2)));
      LastIs(l, Attr(SVC_ADDRESS, RawIPData(s.address)));
      LastIs(l, Attr(SVC_PORT, FromValue(s.port, 2)));
    }
  }

  lemma ServiceFieldsRecovered(e: Endian, parse: Parser, s: Service)
    ensures ServiceFields(e, parse, ServiceAttrs(e, s)) == Recovered(s).(address := [])
  {
    ServiceLookups(e, s);
    IdentityLookups(e, s);
    NativeRoundTrip(e, s.addressFamily, 2);
    NativeRoundTrip(e, s.fwMark, 4);
    NativeRoundTrip(e, s.protocol, 2);
    NativeRoundTrip(Big, s.port, 2);
    NulEndsName(s.schedName);
    FlagsRoundTrip(e, s.flags);
    NativeRoundTrip(e, s.timeout, 4);
    NativeRoundTrip(e, s.netmask, 4);
  }

  /** Decoding an encoded service gives it back, on either byte order, as far as it is encoded. */
  lemma ServiceRoundTrip(e: Endian, parse: Parser, s: Service)
    requires s.fwMark == 0 ==> IsIP(s.address) && s.addressFamily == FamilyOf(s.address)
    ensures var l := ServiceAttrs(e, s);
            && AddressSized(Last(l, SVC_ADDRESS), Num(e, Last(l, SVC_FAMILY), 2))
            && ServiceOf(e, parse, l) == Ok(Recovered(s))
    ensures s.fwMark == 0 ==> SameIP(Recovered(s).address, s.address)
    ensures 0 !in s.schedName ==> Recovered(s).schedName == s.schedName
  {
    ServiceLookups(e, s);
    IdentityLookups(e, s);
    ServiceFieldsRecovered(e, parse, s);
    ServiceAttrsDistinct(e, s);
    NulEndsName(s.schedName);
    if s.fwMark == 0 {
      RawIPDataSame(s.address);
      assert RawIPData(s.address)[..|RawIPData(s.address)|] == RawIPData(s.address);
    }
  }

  lemma RawIPDataSame(ip: Bytes)
    requires IsIP(ip)
    ensures SameIP(RawIPData(ip), ip)
    ensures |RawIPData(ip)| == if To4(ip) != [] then 4 else 16
  {}

  /** An encoded IPv6 service whose family says otherwise never decodes to its own address. */
  lemma WrongFamilyLosesAddress(e: Endian, parse: Parser, s: Service)
    requires s.fwMark == 0 && |s.address| == 16 && To4(s.address) == []
    ensures var l := ServiceAttrs(e, s);
            && AddressSized(Last(l, SVC_ADDRESS), Num(e, Last(l, SVC_FAMILY), 2))
            && ((ServiceOf(e, parse, l).Ok? && SameIP(ServiceOf(e, parse, l).value.address, s.address))
                <==> s.addressFamily == AF_INET6)
  {
    ServiceLookups(e, s);
    IdentityLookups(e, s);
    ServiceFieldsRecovered(e, parse, s);
    ServiceAttrsDistinct(e, s);
    assert s.address[..16] == s.address;
  }

  // ---------- zero padding ----------

  lemma {:induction false} LastUpdated(attrs: seq<Attr>, i: nat, a: Attr, kind: int)
    requires Distinct(attrs) && i < |attrs| && a.kind == attrs[i].kind
    ensures Last(attrs[i := a], kind) == if kind == a.kind then Some(a.value) else Last(attrs, kind)
  {
    var n := |attrs| - 1;
    if i == n {
      assert attrs[i := a][..n] == attrs[..n];
    } else {
      assert attrs[i := a][..n] == attrs[..n][i := a];
      LastUpdated(attrs[..n], i, a, kind);
      if kind == a.kind { LastAt(attrs, i); }
    }
  }

  /** A 4-byte service address that comes back zero-padded to 16 bytes decodes the same. */
  lemma ServicePaddingIgnored(e: Endian, parse: Parser, attrs: seq<Attr>, i: nat)
    requires Distinct(attrs) && i < |attrs| && attrs[i].kind == SVC_ADDRESS && |attrs[i].value| == 4
    requires Num(e, Last(attrs, SVC_FAMILY), 2) == AF_INET
    ensures var padded := attrs[i := Attr(SVC_ADDRESS, attrs[i].value + Zeros(12))];
            && AddressSized(Last(attrs, SVC_ADDRESS), AF_INET)
            && AddressSized(Last(padded, SVC_ADDRESS), Num(e, Last(padded, SVC_FAMILY), 2))
            && ServiceOf(e, parse, padded) == ServiceOf(e, parse, attrs)
  {
    var a := Attr(SVC_ADDRESS, attrs[i].value + Zeros(12));
    var padded := attrs[i := a];
    forall k
      ensures Last(padded, k) == if k == SVC_ADDRESS then Some(a.value) else Last(attrs, k)
    {
      LastUpdated(attrs, i, a, k);
    }
    LastAt(attrs, i);
    assert a.value[..4] == attrs[i].value == attrs[i].value[..4];
    SameOtherAttrs(parse, attrs, i, a, SVC_STATS);
  }

  lemma SameOtherAttrs(parse: Parser, attrs: seq<Attr>, i: nat, a: Attr, kind: int)
    requires i < |attrs| && a.kind == attrs[i].kind != kind
    ensures StatsBroken(parse, attrs[i := a], kind) <==> StatsBroken(parse, attrs, kind)
  {
    var b := attrs[i := a];
    assert forall j :: 0 <= j < |attrs| && attrs[j].kind == kind ==> b[j] == attrs[j];
    assert forall j :: 0 <= j < |attrs| && b[j].kind == kind ==> attrs[j] == b[j];
  }

  // ---------- destination round trip ----------

  lemma DestinationLookups(e: Endian, d: Destination)
    ensures var l := DestinationAttrs(e, d);
            && Last(l, DEST_ADDRESS) == Some(RawIPData(d.address))
            && Last(l, DEST_PORT) == Some(Native(Big, d.port, 2))
            && Last(l, DEST_FORWARDING) == Some(Native(e, d.connectionFlags % 8, 4))
            && Last(l, DEST_WEIGHT) == Some(Native(e, d.weight % 0x1_0000_0000, 4))
            && Last(l, DEST_UPPER) == Some(Native(e, d.upperThreshold, 4))
            && Last(l, DEST_LOWER) == Some(Native(e, d.lowerThreshold, 4))
            && Last(l, DEST_FAMILY) == None && Last(l, DEST_ACTIVE) == None
            && Last(l, DEST_INACTIVE) == None && Last(l, DEST_STATS) == None
            && Distinct(l) && (forall i :: 0 <= i < |l| ==> l[i].kind != DEST_STATS)
  {
    var l := DestinationAttrs(e, d);
    assert Distinct(l);
    LastAt(l, 0);
    LastAt(l, 1);
    LastAt(l, 2);
    LastAt(l, 3);
    LastAt(l, 4);
    LastAt(l, 5);
    LastAbsent(l, DEST_FAMILY);
    LastAbsent(l, DEST_ACTIVE);
    LastAbsent(l, DEST_INACTIVE);
    LastAbsent(l, DEST_STATS);
  }

  /** The scalar fields of a decoded destination; the family is not encoded. */
  lemma DestinationFieldsRecovered(e: Endian, parse: Parser, d: Destination)
    ensures var f := DestinationFields(e, parse, DestinationAttrs(e, d));
            f == Destination([], d.port,
                             (if e.Little? then d.weight % 0x1_0000 else d.weight % 0x1_0000_0000 / 0x1_0000),
                             d.connectionFlags % 8, 0, d.upperThreshold, d.lowerThreshold, 0, 0, NO_STATS)
  {
    var w: U32 := d.weight % 0x1_0000_0000;
    DestinationLookups(e, d);
    NativeRoundTrip(Big, d.port, 2);
    NativeRoundTrip(e, d.connectionFlags % 8, 4);
    WeightRoundTrip(e, w);
    LowHalf(d.weight);
    NativeRoundTrip(e, d.upperThreshold, 4);
    NativeRoundTrip(e, d.lowerThreshold, 4);
  }

  lemma LowHalf(w: int)
    ensures w % 0x1_0000_0000 % 0x1_0000 == w % 0x1_0000
  {}

  /** With the family inferred from the bytes, a destination comes back with its own address exactly
      when it is IPv4 or has a non-zero byte after the first four. */
  lemma DestinationRoundTrip(e: Endian, parse: Parser, d: Destination)
    requires IsIP(d.address)
    ensures var l := DestinationAttrs(e, d);
            && DestAddressSized(Last(l, DEST_ADDRESS), Num(e, Last(l, DEST_FAMILY), 2))
            && var r := DestinationOf(e, parse, l);
               && (r.Ok? && SameIP(r.value.address, d.address) <==> To4(d.address) != [] || !IsZeros(d.address[4..]))
               && (r.Ok? ==>
                     && r.value.port == d.port && r.value.connectionFlags == d.connectionFlags % 8
                     && r.value.upperThreshold == d.upperThreshold && r.value.lowerThreshold == d.lowerThreshold
                     && r.value.weight
                        == if e.Little? then d.weight % 0x1_0000 else d.weight % 0x1_0000_0000 / 0x1_0000)
               && (r.Ok? && SameIP(r.value.address, d.address) ==> r.value.addressFamily == FamilyOf(d.address))
  {
    DestinationLookups(e, d);
    DestinationFieldsRecovered(e, parse, d);
    RawIPDataSame(d.address);
    var raw := RawIPData(d.address);
    assert raw[..|raw|] == raw;
    if To4(d.address) == [] {
      assert raw == d.address;
      if !IsZeros(raw[4..]) {
        var i :| 0 <= i < |raw[4..]| && raw[4..][i] != 0;
        assert raw[i + 4] != 0;
      }
    }
  }

  /** A 4-byte destination address that comes back zero-padded, without a family attribute, decodes
      to the same address exactly when it is not 0.0.0.0. */
  lemma DestinationPaddingIff(e: Endian, parse: Parser, attrs: seq<Attr>, i: nat)
    requires Distinct(attrs) && i < |attrs| && attrs[i].kind == DEST_ADDRESS && |attrs[i].value| == 4
    requires Last(attrs, DEST_FAMILY) == None && !StatsBroken(parse, attrs, DEST_STATS)
    ensures var padded := attrs[i := Attr(DEST_ADDRESS, attrs[i].value + Zeros(12))];
            && DestAddressSized(Last(attrs, DEST_ADDRESS), 0)
            && DestAddressSized(Last(padded, DEST_ADDRESS), Num(e, Last(padded, DEST_FAMILY), 2))
            && (DestinationOf(e, parse, padded) == DestinationOf(e, parse, attrs) <==> !IsZeros(attrs[i].value))
  {
    var a := Attr(DEST_ADDRESS, attrs[i].value + Zeros(12));
    var padded := attrs[i := a];
    forall k
      ensures Last(padded, k) == if k == DEST_ADDRESS then Some(a.value) else Last(attrs, k)
    {
      LastUpdated(attrs, i, a, k);
    }
    LastAt(attrs, i);
    assert a.value[..4] == attrs[i].value == attrs[i].value[..4];
    SameOtherAttrs(parse, attrs, i, a, DEST_STATS);
    assert IsZeros(a.value[4..]);
    if !IsZeros(attrs[i].value) {
      var j :| 0 <= j < 4 && attrs[i].value[j] != 0;
      assert a.value[j] != 0;
    }
  }

  // ---------- what the kernel reports ----------

  /** Statistics as attributes: 32-bit words, and 64-bit ones for the two byte counts. */
  function StatsAttrs(e: Endian, s: Stats): seq<Attr> {
    [Attr(1, Native(e, s.connections, 4)), Attr(2, Native(e, s.packetsIn, 4)), Attr(3, Native(e, s.packetsOut, 4)),
     Attr(4, Native(e, s.bytesIn, 8)), Attr(5, Native(e, s.bytesOut, 8)), Attr(6, Native(e, s.cps, 4)),
     Attr(7, Native(e, s.ppsIn, 4)), Attr(8, Native(e, s.ppsOut, 4)), Attr(9, Native(e, s.bpsIn, 4)),
     Attr(10, Native(e, s.bpsOut, 4))]
  }

  ghost predicate StatsFit(s: Stats) {
    && s.connections < Pow256(4) && s.packetsIn < Pow256(4) && s.packetsOut < Pow256(4)
    && s.bytesIn < Pow256(8) && s.bytesOut < Pow256(8)
    && s.cps < Pow256(4) && s.ppsIn < Pow256(4) && s.ppsOut < Pow256(4) && s.bpsIn < Pow256(4) && s.bpsOut < Pow256(4)
  }

  /** The i-th attribute of a list of distinct kinds reads back as the number it was written from. */
  lemma NumAt(e: Endian, attrs: seq<Attr>, i: nat, v: nat, n: nat)
    requires Distinct(attrs) && i < |attrs| && v < Pow256(n) && attrs[i].value == Native(e, v, n)
    ensures Num(e, Last(attrs, attrs[i].kind), n) == v
  {
    LastAt(attrs, i);
    NativeRoundTrip(e, v, n);
  }

  /** Each statistic is read from its own attribute, at its own width. */
  lemma StatsRoundTrip(e: Endian, s: Stats)
    requires StatsFit(s)
    ensures StatsOf(e, StatsAttrs(e, s)) == s
  {
    var l := StatsAttrs(e, s);
    NumAt(e, l, 0, s.connections, 4);
    NumAt(e, l, 1, s.packetsIn, 4);
    NumAt(e, l, 2, s.packetsOut, 4);
    NumAt(e, l, 3, s.bytesIn, 8);
    NumAt(e, l, 4, s.bytesOut, 8);
    NumAt(e, l, 5, s.cps, 4);
    NumAt(e, l, 6, s.ppsIn, 4);
    NumAt(e, l, 7, s.ppsOut, 4);
    NumAt(e, l, 8, s.bpsIn, 4);
    NumAt(e, l, 9, s.bpsOut, 4);
  }

  /** A destination as the kernel reports it: with its counters, its statistics and its family. */
  function DestinationReport(e: Endian, d: Destination, stats: Bytes): seq<Attr>
    requires d.activeConnections >= 0 && d.inactiveConnections >= 0 && d.weight >= 0
  {
    [Attr(1, d.address), Attr(2, FromValue(d.port, 2)), Attr(3, Native(e, d.connectionFlags, 4)),
     Attr(4, Native(e, d.weight, 4)), Attr(5, Native(e, d.upperThreshold, 4)), Attr(6, Native(e, d.lowerThreshold, 4)),
     Attr(7, Native(e, d.activeConnections, 4)), Attr(8, Native(e, d.inactiveConnections, 4)),
     Attr(10, stats), Attr(11, Native(e, d.addressFamily, 2))]
  }

  ghost predicate FamilyFits(family: int, address: Bytes) {
    (family == 2 && |address| == 4) || (family == 10 && |address| == 16)
  }

  lemma DestinationReportDistinct(e: Endian, d: Destination, stats: Bytes)
    requires d.activeConnections >= 0 && d.inactiveConnections >= 0 && d.weight >= 0
    ensures Distinct(DestinationReport(e, d, stats))
  {}

  lemma ReportedFields(e: Endian, parse: Parser, d: Destination, stats: Bytes)
    requires 0 <= d.activeConnections < 0x1_0000_0000 && 0 <= d.inactiveConnections < 0x1_0000_0000
    requires 0 <= d.weight < 0x1_0000_0000
    requires StatsFit(d.stats) && parse(stats) == Some(StatsAttrs(e, d.stats))
    ensures var l := DestinationReport(e, d, stats);
            && DestinationFields(e, parse, l)
               == d.(address := [], weight := if e.Little? then d.weight % 0x1_0000 else d.weight / 0x1_0000)
            && Last(l, DEST_ADDRESS) == Some(d.address) && Distinct(l)
  {
    var l := DestinationReport(e, d, stats);
    DestinationReportDistinct(e, d, stats);
    LastAt(l, 0);
    assert l[1].value == Native(Big, d.port, 2);
    NumAt(Big, l, 1, d.port, 2);
    NumAt(e, l, 2, d.connectionFlags, 4);
    LastAt(l, 3);
    WeightRoundTrip(e, d.weight);
    NumAt(e, l, 4, d.upperThreshold, 4);
    NumAt(e, l, 5, d.lowerThreshold, 4);
    NumAt(e, l, 6, d.activeConnections, 4);
    NumAt(e, l, 7, d.inactiveConnections, 4);
    LastAt(l, 8);
    StatsRoundTrip(e, d.stats);
    NumAt(e, l, 9, d.addressFamily, 2);
  }

  /** A reported destination decodes to itself, except for its weight, of which two bytes are read. */
  lemma ReportedDestination(e: Endian, parse: Parser, d: Destination, stats: Bytes)
    requires 0 <= d.activeConnections < 0x1_0000_0000 && 0 <= d.inactiveConnections < 0x1_0000_0000
    requires 0 <= d.weight < 0x1_0000_0000 && FamilyFits(d.addressFamily, d.address)
    requires StatsFit(d.stats) && parse(stats) == Some(StatsAttrs(e, d.stats))
    ensures var l := DestinationReport(e, d, stats);
            && DestAddressSized(Last(l, DEST_ADDRESS), Num(e, Last(l, DEST_FAMILY), 2))
            && DestinationOf(e, parse, l)
               == Ok(d.(weight := if e.Little? then d.weight % 0x1_0000 else d.weight / 0x1_0000))
  {
    var l := DestinationReport(e, d, stats);
    ReportedFields(e, parse, d, stats);
    assert !StatsBroken(parse, l, DEST_STATS);
    assert d.address[..|d.address|] == d.address;
  }

  /** A service as the kernel reports it, with its statistics. */
  function ServiceReport(e: Endian, s: Service, stats: Bytes): seq<Attr> {
    [Attr(1, Native(e, s.addressFamily, 2)), Attr(2, Native(e, s.protocol, 2)), Attr(3, s.address),
     Attr(4, FromValue(s.port, 2)), Attr(6, s.schedName + [0]),
     Attr(7, Native(e, s.flags, 4) + Native(e, 0xFFFF_FFFF, 4)), Attr(8, Native(e, s.timeout, 4)),
     Attr(9, Native(e, s.netmask, 4)), Attr(10, stats)]
  }

  lemma ServiceReportDistinct(e: Endian, s: Service, stats: Bytes)
    ensures var l := ServiceReport(e, s, stats);
            Distinct(l) && forall i :: 0 <= i < |l| ==> l[i].kind != SVC_FWMARK
  {}

  lemma ReportedServiceFields(e: Endian, parse: Parser, s: Service, stats: Bytes)
    requires s.fwMark == 0 && s.peName == [] && 0 !in s.schedName
    requires StatsFit(s.stats) && parse(stats) == Some(StatsAttrs(e, s.stats))
    ensures var l := ServiceReport(e, s, stats);
            && ServiceFields(e, parse, l) == s.(address := [])
            && Last(l, SVC_ADDRESS) == Some(s.address) && Distinct(l)
  {
    var l := ServiceReport(e, s, stats);
    ServiceReportDistinct(e, s, stats);
    NumAt(e, l, 0, s.addressFamily, 2);
    NumAt(e, l, 1, s.protocol, 2);
    LastAt(l, 2);
    assert l[3].value == Native(Big, s.port, 2);
    NumAt(Big, l, 3, s.port, 2);
    LastAt(l, 4);
    NulEndsName(s.schedName);
    LastAt(l, 5);
    FlagsRoundTrip(e, s.flags);
    NumAt(e, l, 6, s.timeout, 4);
    NumAt(e, l, 7, s.netmask, 4);
    LastAt(l, 8);
    StatsRoundTrip(e, s.stats);
    LastAbsent(l, SVC_FWMARK);
  }

  /** A reported service decodes to itself, statistics included. */
  lemma ReportedService(e: Endian, parse: Parser, s: Service, stats: Bytes)
    requires s.fwMark == 0 && s.peName == [] && 0 !in s.schedName && FamilyFits(s.addressFamily, s.address)
    requires StatsFit(s.stats) && parse(stats) == Some(StatsAttrs(e, s.stats))
    ensures var l := ServiceReport(e, s, stats);
            && AddressSized(Last(l, SVC_ADDRESS), Num(e, Last(l, SVC_FAMILY), 2))
            && ServiceOf(e, parse, l) == Ok(s)
  {
    var l := ServiceReport(e, s, stats);
    ReportedServiceFields(e, parse, s, stats);
    assert !StatsBroken(parse, l, SVC_STATS);
    assert s.address[..|s.address|] == s.address;
  }

  // ---------- when decoding fails ----------

  /** Some statistics attribute, kind 10 in either list, does not parse. */
  ghost predicate BadStats(parse: Parser, attrs: seq<Attr>) {
    exists a :: a in attrs && a.kind == 10 && parse(a.value).None?
  }

  lemma StatsBrokenIff(parse: Parser, attrs: seq<Attr>)
    ensures StatsBroken(parse, attrs, 10) <==> BadStats(parse, attrs)
  {
    if i :| 0 <= i < |attrs| && attrs[i].kind == 10 && parse(attrs[i].value).None? {
      assert attrs[i] in attrs;
    }
    if a :| a in attrs && a.kind == 10 && parse(a.value).None? {
      var i :| 0 <= i < |attrs| && attrs[i] == a;
    }
  }

  /** A service is refused exactly for bad statistics, or an address under a family that is neither AF_INET (2) nor
      AF_INET6 (10). */
  lemma ServiceRefusedIff(e: Endian, parse: Parser, attrs: seq<Attr>)
    requires AddressSized(Last(attrs, SVC_ADDRESS), Num(e, Last(attrs, SVC_FAMILY), 2))
    ensures ServiceOf(e, parse, attrs).Err? <==>
            BadStats(parse, attrs)
            || (Last(attrs, 3).Some? && Num(e, Last(attrs, 1), 2) != 2 && Num(e, Last(attrs, 1), 2) != 10)
  {
    StatsBrokenIff(parse, attrs);
  }

  /** So is a destination; and one without a family, when its address is missing or is sixteen zero bytes. */
  lemma DestinationRefusedIff(e: Endian, parse: Parser, attrs: seq<Attr>)
    requires DestAddressSized(Last(attrs, DEST_ADDRESS), Num(e, Last(attrs, DEST_FAMILY), 2))
    ensures var family, address := Num(e, Last(attrs, 11), 2), Last(attrs, 1);
            DestinationOf(e, parse, attrs).Err? <==>
            BadStats(parse, attrs)
            || (family == 0 && (address.None? || address == Some(Zeros(16))))
            || (address.Some? && family != 0 && family != 2 && family != 10)
  {
    StatsBrokenIff(parse, attrs);
    var address := Last(attrs, DEST_ADDRESS);
    if address.Some? && |address.value| == 16 {
      assert IsZeros(address.value) <==> address.value == Zeros(16);
    }
  }
}
