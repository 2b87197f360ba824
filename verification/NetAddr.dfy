/** Addresses as the Go net package holds them: byte strings of 4 or 16 bytes,
    read as big-endian numbers. The empty string stands for a nil address. */
module NetAddr {

  datatype Option<+T> = None | Some(value: T) {
    function Or(default: T): T {
      if Some? then value else default
    }
  }

  type Byte = x: int | 0 <= x < 256
  type Bytes = seq<Byte>

  const V4_IN_V6_PREFIX: Bytes := [0, 0, 0, 0, 0, 0, 0, 0, 0, 0, 255, 255]

  function Zeros(n: nat): Bytes {
    seq(n, _ => 0)
  }

  predicate IsIP(ip: Bytes) {
    |ip| == 4 || |ip| == 16
  }

  function To16(ip: Bytes): Bytes {
    if |ip| == 4 then V4_IN_V6_PREFIX + ip
    else if |ip| == 16 then ip
    else []
  }

  function To4(ip: Bytes): Bytes {
    if |ip| == 4 then ip
    else if |ip| == 16 && ip[..12] == V4_IN_V6_PREFIX then ip[12..]
    else []
  }

  /** net.IP.Equal: a 4-byte address equals its 16-byte mapped form. */
  predicate SameIP(a: Bytes, b: Bytes) {
    if |a| == |b| then a == b
    else if |a| == 4 && |b| == 16 then b[..12] == V4_IN_V6_PREFIX && a == b[12..]
    else if |a| == 16 && |b| == 4 then a[..12] == V4_IN_V6_PREFIX && b == a[12..]
    else false
  }

  lemma SameIPIffSameTo16(a: Bytes, b: Bytes)
    requires IsIP(a) && IsIP(b)
    ensures SameIP(a, b) <==> To16(a) == To16(b)
  {
    if |a| == 4 && |b| == 4 {
      assert To16(a)[12..] == a && To16(b)[12..] == b;
    } else if |a| == 4 {
      assert b == b[..12] + b[12..];
      assert To16(a)[..12] == V4_IN_V6_PREFIX && To16(a)[12..] == a;
    } else if |b| == 4 {
      assert a == a[..12] + a[12..];
      assert To16(b)[..12] == V4_IN_V6_PREFIX && To16(b)[12..] == b;
    }
  }

  function Pow256(n: nat): (r: nat)
    ensures r > 0
  {
    if n == 0 then 1 else 256 * Pow256(n - 1)
  }

  /** The big-endian number a byte string writes. */
  function Value(b: Bytes): (v: nat)
    ensures v < Pow256(|b|)
  {
    if b == [] then 0 else 256 * Value(b[..|b| - 1]) + b[|b| - 1]
  }

  /** The byte string of length n that writes v modulo 256^n. */
  function FromValue(v: nat, n: nat): (b: Bytes)
    ensures |b| == n
  {
    if n == 0 then [] else FromValue(v / 256, n - 1) + [v % 256]
  }

  lemma {:induction false} ValueOfFromValue(v: nat, n: nat)
    requires v < Pow256(n)
    ensures Value(FromValue(v, n)) == v
  {
    if n > 0 {
      ValueOfFromValue(v / 256, n - 1);
      assert FromValue(v, n)[..n - 1] == FromValue(v / 256, n - 1);
    }
  }

  /** The first differing byte decides the order of the numbers. */
  lemma {:induction false} FirstDifferenceDecides(a: Bytes, b: Bytes, i: nat)
    requires |a| == |b| && i < |a| && a[..i] == b[..i] && a[i] < b[i]
    ensures Value(a) < Value(b)
  {
    var n := |a| - 1;
    if i < n {
      assert a[..n][..i] == a[..i] && b[..n][..i] == b[..i];
      FirstDifferenceDecides(a[..n], b[..n], i);
    }
  }

  lemma {:induction false} ValueInjective(a: Bytes, b: Bytes)
    requires |a| == |b| && Value(a) == Value(b)
    ensures a == b
  {
    if |a| > 0 {
      var n := |a| - 1;
      ValueInjective(a[..n], b[..n]);
      assert a == a[..n] + [a[n]] && b == b[..n] + [b[n]];
    }
  }

  lemma {:induction false} ValueConcat(a: Bytes, b: Bytes)
    ensures Value(a + b) == Value(a) * Pow256(|b|) + Value(b)
  {
    if b == [] {
      assert a + b == a;
    } else {
      var n := |b| - 1;
      ValueConcat(a, b[..n]);
      assert (a + b)[..|a + b| - 1] == a + b[..n];
      assert (a + b)[|a + b| - 1] == b[n];
      Scale(Value(a), Pow256(n), Value(b[..n]));
    }
  }

  lemma Scale(x: int, p: int, y: int)
    ensures 256 * (x * p + y) == x * (256 * p) + 256 * y
  {}

  /** An address between two addresses with a common prefix has that prefix. */
  lemma {:induction false} BetweenKeepsPrefix(lo: Bytes, x: Bytes, hi: Bytes, k: nat)
    requires |lo| == |x| == |hi| && k <= |x| && lo[..k] == hi[..k]
    requires Value(lo) <= Value(x) <= Value(hi)
    ensures x[..k] == lo[..k]
  {
    if k > 0 {
      var i := k - 1;
      TakeSnoc(lo, i);
      TakeSnoc(hi, i);
      TakeSnoc(x, i);
      BetweenKeepsPrefix(lo, x, hi, i);
      if x[i] < lo[i] {
        FirstDifferenceDecides(x, lo, i);
      } else if x[i] > hi[i] {
        FirstDifferenceDecides(hi, x, i);
      }
    }
  }

  lemma TakeSnoc(s: Bytes, i: nat)
    requires i < |s|
    ensures s[..i + 1] == s[..i] + [s[i]] && s[..i + 1][..i] == s[..i] && s[..i + 1][i] == s[i]
  {}
}
