/** Prefix blocks (net.IPNet) and the numbers they cover. */
module CidrBlocks {
  import opened NetAddr

  /** A parsed CIDR: a network address and the number of leading one bits of its mask. */
  datatype Cidr = Cidr(network: Bytes, bits: nat)

  predicate ValidCidr(c: Cidr) {
    IsIP(c.network) && c.bits <= 8 * |c.network|
  }

  /** The network in 4-byte form when it has one, as IPNet.Contains takes it. */
  function NetworkNumber(c: Cidr): Bytes {
    if To4(c.network) != [] then To4(c.network) else c.network
  }

  /** Mask bits that apply to NetworkNumber: a 16-byte mask keeps its last four bytes. */
  function NetworkBits(c: Cidr): nat {
    if |c.network| == 16 && To4(c.network) != [] then (if c.bits < 96 then 0 else c.bits - 96) else c.bits
  }

  /** How many leading bits of byte i a mask of `bits` ones covers. */
  function MaskBits(bits: nat, i: nat): (k: nat)
    ensures k <= 8
  {
    if bits <= 8 * i then 0 else if bits >= 8 * i + 8 then 8 else bits - 8 * i
  }

  /** b & m for the mask byte m with k leading ones: the low 8 - k bits cleared. */
  function Masked(b: Byte, k: nat): int
    requires k <= 8
  {
    match k
    case 0 => 0
    case 1 => b - b % 128
    case 2 => b - b % 64
    case 3 => b - b % 32
    case 4 => b - b % 16
    case 5 => b - b % 8
    case 6 => b - b % 4
    case 7 => b - b % 2
    case _ => b
  }

  /** v shifted right by h bits. */
  function ShiftRight(v: nat, h: nat): nat {
    if h == 0 then v else ShiftRight(v / 2, h - 1)
  }

  predicate MatchesPrefix(a: Bytes, b: Bytes, bits: nat)
    requires |a| == |b|
  {
    forall i :: 0 <= i < |a| ==> Masked(a[i], MaskBits(bits, i)) == Masked(b[i], MaskBits(bits, i))
  }

  predicate InCidr(c: Cidr, ip: Bytes) {
    var x := if To4(ip) != [] then To4(ip) else ip;
    var nn := NetworkNumber(c);
    |x| == |nn| && MatchesPrefix(nn, x, NetworkBits(c))
  }

  lemma {:induction false} ShiftTwice(v: nat, g: nat, h: nat)
    ensures ShiftRight(v, g + h) == ShiftRight(ShiftRight(v, g), h)
  {
    if g > 0 {
      ShiftTwice(v / 2, g - 1, h);
    }
  }

  lemma {:induction false} ShiftMonotone(x: nat, y: nat, h: nat)
    requires x <= y
    ensures ShiftRight(x, h) <= ShiftRight(y, h)
  {
    if h > 0 {
      ShiftMonotone(x / 2, y / 2, h - 1);
    }
  }

  lemma ShiftByte(v: nat)
    ensures ShiftRight(v, 8) == v / 256
  {
    ShiftDigit(v / 256, v % 256, 0);
  }

  lemma ShiftOneMore(v: nat, h: nat)
    ensures ShiftRight(v, h + 1) == ShiftRight(v, h) / 2
  {
    ShiftTwice(v, h, 1);
  }

  /** Shifting a two-digit number by up to one digit: the high digit scales, the low one loses bits. */
  lemma {:induction false} ShiftDigit(x: nat, a: Byte, k: nat)
    requires k <= 8
    ensures ShiftRight(256 * x + a, 8 - k) == Scale2(k) * x + a / Scale2(8 - k)
    decreases 8 - k
  {
    if k < 8 {
      ShiftDigit(x, a, k + 1);
      ShiftOneMore(256 * x + a, 7 - k);
      HalveTop(a, k);
      HalveSum(x, Scale2(k), a / Scale2(7 - k));
    }
  }

  lemma HalveTop(a: Byte, k: nat)
    requires k < 8
    ensures a / Scale2(8 - k) == a / Scale2(7 - k) / 2 && Scale2(k + 1) == 2 * Scale2(k)
  {}

  lemma HalveSum(x: nat, s: nat, t: nat)
    ensures (2 * s * x + t) / 2 == s * x + t / 2
  {}

  lemma MaskedIsScaledTop(a: Byte, k: nat)
    requires k <= 8
    ensures a / Scale2(8 - k) < Scale2(k)
    ensures Masked(a, k) == (a / Scale2(8 - k)) * Scale2(8 - k)
  {}

  function Scale2(k: nat): (r: nat)
    requires k <= 8
    ensures r > 0
  {
    match k
    case 0 => 1 case 1 => 2 case 2 => 4 case 3 => 8 case 4 => 16 case 5 => 32 case 6 => 64 case 7 => 128 case _ => 256
  }

  /** Equal leading k bits of the lowest byte, under equal higher bytes, are equal shifts. */
  lemma MaskedByte(x: nat, y: nat, a: Byte, b: Byte, k: nat)
    requires k <= 8
    ensures x == y && Masked(a, k) == Masked(b, k) <==> ShiftRight(256 * x + a, 8 - k) == ShiftRight(256 * y + b, 8 - k)
  {
    ShiftDigit(x, a, k);
    ShiftDigit(y, b, k);
    MaskedIsScaledTop(a, k);
    MaskedIsScaledTop(b, k);
  }

  lemma FullBytesMatchIffEqual(a: Bytes, b: Bytes, bits: nat)
    requires |a| == |b| && bits >= 8 * |a|
    ensures MatchesPrefix(a, b, bits) <==> a == b
  {}

  /** The bytewise mask comparison, for every prefix length, is equality of the numbers without
      their host bits. */
  lemma {:induction false} PrefixIsShift(a: Bytes, b: Bytes, bits: nat)
    requires |a| == |b| && bits <= 8 * |a|
    ensures MatchesPrefix(a, b, bits) <==> ShiftRight(Value(a), 8 * |a| - bits) == ShiftRight(Value(b), 8 * |a| - bits)
  {
    if a == [] {
      assert a == b;
    } else {
      var n := |a| - 1;
      MatchesSnoc(a, b, bits);
      if bits >= 8 * n {
        CutInLastByte(a, b, bits);
      } else {
        PrefixIsShift(a[..n], b[..n], bits);
        ShiftDropsByte(a, 8 * n - bits);
        ShiftDropsByte(b, 8 * n - bits);
      }
    }
  }

  /** The cut falls in the last byte: everything before it must be equal. */
  lemma CutInLastByte(a: Bytes, b: Bytes, bits: nat)
    requires |a| == |b| > 0 && 8 * (|a| - 1) <= bits <= 8 * |a|
    ensures var n := |a| - 1;
            var k := MaskBits(bits, n);
            MatchesPrefix(a[..n], b[..n], bits) && Masked(a[n], k) == Masked(b[n], k)
            <==> ShiftRight(Value(a), 8 * |a| - bits) == ShiftRight(Value(b), 8 * |a| - bits)
  {
    var n := |a| - 1;
    FullBytesMatchIffEqual(a[..n], b[..n], bits);
    if Value(a[..n]) == Value(b[..n]) { ValueInjective(a[..n], b[..n]); }
    MaskedByte(Value(a[..n]), Value(b[..n]), a[n], b[n], MaskBits(bits, n));
  }

  lemma ShiftDropsByte(a: Bytes, h: nat)
    requires |a| > 0
    ensures ShiftRight(Value(a), 8 + h) == ShiftRight(Value(a[..|a| - 1]), h)
  {
    ShiftTwice(Value(a), 8, h);
    ShiftByte(Value(a));
  }

  lemma MatchesSnoc(a: Bytes, b: Bytes, bits: nat)
    requires |a| == |b| > 0
    ensures var n := |a| - 1;
            MatchesPrefix(a, b, bits) <==>
            MatchesPrefix(a[..n], b[..n], bits) && Masked(a[n], MaskBits(bits, n)) == Masked(b[n], MaskBits(bits, n))
  {}

  /** Same-length addresses between two members of a prefix block belong to it. */
  lemma BlockIsInterval(nn: Bytes, bits: nat, lo: Bytes, x: Bytes, hi: Bytes)
    requires |nn| == |lo| == |x| == |hi| && bits <= 8 * |nn|
    requires MatchesPrefix(nn, lo, bits) && MatchesPrefix(nn, hi, bits)
    requires Value(lo) <= Value(x) <= Value(hi)
    ensures MatchesPrefix(nn, x, bits)
  {
    PrefixIsShift(nn, lo, bits);
    PrefixIsShift(nn, x, bits);
    PrefixIsShift(nn, hi, bits);
    ShiftBetween(Value(lo), Value(x), Value(hi), 8 * |nn| - bits);
  }

  lemma ShiftBetween(lo: nat, x: nat, hi: nat, h: nat)
    requires lo <= x <= hi
    ensures ShiftRight(lo, h) == ShiftRight(hi, h) ==> ShiftRight(x, h) == ShiftRight(lo, h)
  {
    ShiftMonotone(lo, x, h);
    ShiftMonotone(x, hi, h);
  }

  lemma MemberOfIPv4Cidr(c: Cidr, x: Bytes)
    requires |x| == 16 && |NetworkNumber(c)| == 4 && InCidr(c, x)
    ensures x[..12] == V4_IN_V6_PREFIX && MatchesPrefix(NetworkNumber(c), x[12..], NetworkBits(c))
  {}

  /** In an IPv4 network everything between two members is IPv4-mapped and a member. */
  lemma RangeInIPv4Cidr(c: Cidr, lo: Bytes, x: Bytes, hi: Bytes)
    requires ValidCidr(c) && |lo| == |x| == |hi| == 16 && |NetworkNumber(c)| == 4
    requires InCidr(c, lo) && InCidr(c, hi)
    requires Value(lo) <= Value(x) <= Value(hi)
    ensures To4(x) == x[12..] && MatchesPrefix(NetworkNumber(c), x[12..], NetworkBits(c))
  {
    MemberOfIPv4Cidr(c, lo);
    MemberOfIPv4Cidr(c, hi);
    BetweenKeepsPrefix(lo, x, hi, 12);
    TailInOrder(lo, x);
    TailInOrder(x, hi);
    BlockIsInterval(NetworkNumber(c), NetworkBits(c), lo[12..], x[12..], hi[12..]);
  }

  /** A 16-byte address between two members of the CIDR is a member, except for exactly one family:
      an IPv4-mapped address inside an IPv6 network. */
  lemma RangeInCidr(c: Cidr, lo: Bytes, x: Bytes, hi: Bytes)
    requires ValidCidr(c) && |lo| == |x| == |hi| == 16
    requires InCidr(c, lo) && InCidr(c, hi)
    requires Value(lo) <= Value(x) <= Value(hi)
    ensures InCidr(c, x) <==> (|NetworkNumber(c)| == 4 || To4(x) == [])
  {
    if |NetworkNumber(c)| == 4 {
      RangeInIPv4Cidr(c, lo, x, hi);
    } else if To4(x) == [] {
      BlockIsInterval(NetworkNumber(c), NetworkBits(c), lo, x, hi);
    }
  }

  // ---------- the CIDR test in numbers ----------

  ghost function Pow2(h: nat): (p: nat)
    ensures p > 0
  {
    if h == 0 then 1 else 2 * Pow2(h - 1)
  }

  lemma QuotientIs(v: nat, d: nat, q: nat, r: nat)
    requires r < d && v == d * q + r
    ensures v / d == q
  {
    var k := v / d;
    assert v == d * k + v % d;
    if k < q {
      Times(d, k, q);
    } else if q < k {
      Times(d, q, k);
    }
  }

  lemma {:induction false} Times(d: nat, a: nat, b: nat)
    requires a < b
    ensures d * (a + 1) <= d * b
    decreases b
  {
    if a + 1 < b {
      Times(d, a, b - 1);
      assert d * b == d * (b - 1) + d;
    }
  }

  lemma HalfThenRest(v: nat, p: nat)
    requires p > 0
    ensures v / 2 / p == v / (2 * p)
  {
    var q, r := v / 2 / p, v / 2 % p;
    assert v / 2 == p * q + r;
    QuotientIs(v, 2 * p, q, 2 * r + v % 2);
  }

  /** Shifting right is dividing by a power of two. */
  lemma {:induction false} ShiftIsDivision(v: nat, h: nat)
    ensures ShiftRight(v, h) == v / Pow2(h)
  {
    if h > 0 {
      ShiftIsDivision(v / 2, h - 1);
      HalfThenRest(v, Pow2(h - 1));
    }
  }

  /** The numbers agree above their lowest h bits. */
  ghost predicate SameAbove(x: nat, y: nat, h: nat) {
    x / Pow2(h) == y / Pow2(h)
  }

  lemma PrefixIsQuotient(a: Bytes, b: Bytes, bits: nat)
    requires |a| == |b| && bits <= 8 * |a|
    ensures MatchesPrefix(a, b, bits) <==> SameAbove(Value(a), Value(b), 8 * |a| - bits)
  {
    PrefixIsShift(a, b, bits);
    ShiftIsDivision(Value(a), 8 * |a| - bits);
    ShiftIsDivision(Value(b), 8 * |a| - bits);
  }

  /** In an IPv4 network written in four bytes: the IPv4-mapped addresses whose last four bytes share its prefix. */
  lemma InIPv4CidrIff(c: Cidr, x: Bytes)
    requires ValidCidr(c) && |c.network| == 4 && |x| == 16
    ensures InCidr(c, x) <==>
            x[..12] == [0, 0, 0, 0, 0, 0, 0, 0, 0, 0, 255, 255]
            && SameAbove(Value(c.network), Value(x[12..]), 32 - c.bits)
  {
    PrefixIsQuotient(c.network, x[12..], c.bits);
  }

  /** The same network in its 16-byte form, where the first 96 mask bits do not count. */
  lemma InMappedCidrIff(c: Cidr, x: Bytes)
    requires ValidCidr(c) && |c.network| == 16 && |x| == 16
    requires c.network[..12] == [0, 0, 0, 0, 0, 0, 0, 0, 0, 0, 255, 255]
    ensures InCidr(c, x) <==>
            x[..12] == [0, 0, 0, 0, 0, 0, 0, 0, 0, 0, 255, 255]
            && SameAbove(Value(c.network[12..]), Value(x[12..]), if c.bits < 96 then 32 else 128 - c.bits)
  {
    PrefixIsQuotient(c.network[12..], x[12..], if c.bits < 96 then 0 else c.bits - 96);
  }

  /** In an IPv6 network: the addresses that share its prefix, except the IPv4-mapped ones. */
  lemma InIPv6CidrIff(c: Cidr, x: Bytes)
    requires ValidCidr(c) && |c.network| == 16 && |x| == 16
    requires c.network[..12] != [0, 0, 0, 0, 0, 0, 0, 0, 0, 0, 255, 255]
    ensures InCidr(c, x) <==>
            x[..12] != [0, 0, 0, 0, 0, 0, 0, 0, 0, 0, 255, 255]
            && SameAbove(Value(c.network), Value(x), 128 - c.bits)
  {
    if To4(x) == [] {
      PrefixIsQuotient(c.network, x, c.bits);
    }
  }

  /** A nil address is in no network, and a 4-byte address counts as its mapped form. */
  lemma ShortAddresses(c: Cidr, x: Bytes)
    requires ValidCidr(c) && |x| == 4
    ensures !InCidr(c, []) && (InCidr(c, x) <==> InCidr(c, [0, 0, 0, 0, 0, 0, 0, 0, 0, 0, 255, 255] + x))
  {
    assert ([0, 0, 0, 0, 0, 0, 0, 0, 0, 0, 255, 255] + x)[..12] == V4_IN_V6_PREFIX;
    assert ([0, 0, 0, 0, 0, 0, 0, 0, 0, 0, 255, 255] + x)[12..] == x;
  }

  /** Every 16-byte address that is not IPv4-mapped is in ::/0. */
  lemma InEverything(x: Bytes)
    requires |x| == 16
    ensures InCidr(Cidr(Zeros(16), 0), x) <==> To4(x) == []
  {
    assert Zeros(16)[..12][10] == 0;
    assert forall i: nat :: MaskBits(0, i) == 0;
  }

  /** In ::/0 the range from ::1 to ff00:: meets the mapped block: ::ffff:1.2.3.4 lies in the range but not in
      the CIDR. */
  lemma MappedHole()
    ensures var c := Cidr(Zeros(16), 0);
            var lo, x, hi := Zeros(15) + [1], V4_IN_V6_PREFIX + [1, 2, 3, 4], [255] + Zeros(15);
            && ValidCidr(c) && InCidr(c, lo) && InCidr(c, hi) && Value(lo) < Value(x) < Value(hi) && !InCidr(c, x)
  {
    var lo: Bytes, x: Bytes, hi: Bytes := Zeros(15) + [1], V4_IN_V6_PREFIX + [1, 2, 3, 4], [255] + Zeros(15);
    InEverything(lo);
    InEverything(x);
    InEverything(hi);
    assert lo[..12][10] == 0 && hi[..12][0] == 255 && x[..12] == V4_IN_V6_PREFIX;
    assert lo[..10] == x[..10];
    FirstDifferenceDecides(lo, x, 10);
    FirstDifferenceDecides(x, hi, 0);
  }

  lemma TailInOrder(x: Bytes, y: Bytes)
    requires |x| == |y| == 16 && x[..12] == y[..12] && Value(x) <= Value(y)
    ensures Value(x[12..]) <= Value(y[12..])
  {
    Split(x);
    Split(y);
  }

  lemma Split(x: Bytes)
    requires |x| == 16
    ensures Value(x) == Value(x[..12]) * Pow256(4) + Value(x[12..])
  {
    assert x == x[..12] + x[12..];
    ValueConcat(x[..12], x[12..]);
  }
}
