/** The address allocator of internal/ipam/simple.go. */
module Ipam {
  import opened NetAddr
  import opened CidrBlocks
  import opened IpTrie

  const MAX_IP: nat := Pow256(16) - 1

  datatype Range = Range(from: Bytes, to: Bytes)

  predicate ValidRange(r: Range) {
    |r.from| == 16 && |r.to| == 16
  }

  /** The numbers of the addresses in a list. */
  ghost function Taken(addrs: seq<Bytes>): set<nat> {
    set a | a in addrs :: Value(To16(a))
  }

  /** The reference allocator: the least number of lo..hi that is not taken. */
  ghost function FirstFree(taken: set<nat>, lo: nat, hi: nat): (r: Option<nat>)
    ensures r.Some? ==> lo <= r.value <= hi && r.value !in taken && forall w: nat :: lo <= w < r.value ==> w in taken
    ensures r.None? ==> forall w: nat :: lo <= w <= hi ==> w in taken
    decreases hi - lo
  {
    if lo > hi then None
    else if lo !in taken then Some(lo)
    else if lo == hi then None
    else FirstFree(taken, lo + 1, hi)
  }

  /** What Allocate answers: the first free number of the range. When the range ends in the
      all-ones address and is full, the increment wraps and the scan goes on from zero. */
  ghost function Allocated(taken: set<nat>, lo: nat, hi: nat): Option<nat> {
    if FirstFree(taken, lo, hi).Some? || hi < MAX_IP then FirstFree(taken, lo, hi) else FirstFree(taken, 0, MAX_IP)
  }

  /** The scan of Allocate ends: either it can leave the range, or some address is free. */
  ghost predicate ScanEnds(taken: set<nat>, hi: nat) {
    hi == MAX_IP ==> FirstFree(taken, 0, MAX_IP).Some?
  }

  method BytesCompare(left: Bytes, right: Bytes) returns (r: int)
    requires IsIP(left) && IsIP(right)
    ensures r == -1 || r == 0 || r == 1
    ensures r == -1 <==> Value(To16(left)) < Value(To16(right))
    ensures r == 0 <==> SameIP(left, right)
    ensures r == 0 <==> Value(To16(left)) == Value(To16(right))
  {
    var l, r' := To16(left), To16(right);
    SameIPIffSameTo16(left, right);
    for i := 0 to 16
      invariant l[..i] == r'[..i]
    {
      if l[i] < r'[i] {
        FirstDifferenceDecides(l, r', i);
        return -1;
      } else if l[i] > r'[i] {
        FirstDifferenceDecides(r', l, i);
        return 1;
      }
      assert l[..i + 1] == l[..i] + [l[i]] && r'[..i + 1] == r'[..i] + [r'[i]];
    }
    assert l[..16] == l && r'[..16] == r';
    return 0;
  }

  lemma {:induction false} CarryStopsAt(ip: Bytes, next: Bytes, i: nat)
    requires |ip| == |next| && i < |ip| && next[..i] == ip[..i] && next[i] as int == ip[i] as int + 1
    requires forall j :: i < j < |ip| ==> ip[j] == 255 && next[j] == 0
    ensures Value(next) == Value(ip) + 1
  {
    var n := |ip| - 1;
    if i < n {
      assert next[..n][..i] == next[..i] && ip[..n][..i] == ip[..i];
      CarryStopsAt(ip[..n], next[..n], i);
    }
  }

  lemma {:induction false} CarryRunsOut(ip: Bytes, next: Bytes)
    requires |ip| == |next|
    requires forall j :: 0 <= j < |ip| ==> ip[j] == 255 && next[j] == 0
    ensures Value(ip) == Pow256(|ip|) - 1 && Value(next) == 0
  {
    if |ip| > 0 {
      CarryRunsOut(ip[..|ip| - 1], next[..|ip| - 1]);
    }
  }

  method GetNextIP(ip: Bytes) returns (next: Bytes)
    ensures |next| == |ip|
    ensures Value(next) == if Value(ip) + 1 == Pow256(|ip|) then 0 else Value(ip) + 1
  {
    var buf := new Byte[|ip|](i requires 0 <= i < |ip| => ip[i]);
    var i := |ip| - 1;
    while i >= 0
      invariant -1 <= i < |ip|
      invariant buf[..i + 1] == ip[..i + 1]
      invariant forall j :: i < j < |ip| ==> ip[j] == 255 && buf[j] == 0
    {
      assert buf[i] == buf[..i + 1][i] == ip[..i + 1][i];
      buf[i] := (buf[i] as int + 1) % 256;
      if buf[i] > 0 {
        next := buf[..];
        assert next[..i] == buf[..i] == ip[..i + 1][..i] == ip[..i];
        CarryStopsAt(ip, next, i);
        return;
      }
      assert buf[..i] == ip[..i + 1][..i];
      i := i - 1;
    }
    next := buf[..];
    CarryRunsOut(ip, next);
  }

  method IsUsed(ip: Bytes, addrs: seq<Bytes>) returns (used: bool)
    ensures used <==> exists i :: 0 <= i < |addrs| && SameIP(ip, addrs[i])
  {
    for i := 0 to |addrs|
      invariant forall j :: 0 <= j < i ==> !SameIP(ip, addrs[j])
    {
      if SameIP(ip, addrs[i]) {
        return true;
      }
    }
    return false;
  }

  /** The trie Allocate builds from the link's addresses. */
  method BuildTrie(addrs: seq<Bytes>) returns (trie: Trie)
    ensures fresh(trie) && fresh(trie.repr) && trie.Contents() == Some(Canonical(addrs))
  {
    trie := new Trie();
    for i := 0 to |addrs|
      invariant fresh(trie) && fresh(trie.repr) && trie.Valid()
      invariant trie.Members() == Canonical(addrs[..i])
    {
      trie.Insert(To16(addrs[i]));
      assert addrs[..i + 1] == addrs[..i] + [addrs[i]];
    }
    assert addrs[..|addrs|] == addrs;
  }

  ghost function Canonical(addrs: seq<Bytes>): set<Bytes> {
    set a | a in addrs :: To16(a)
  }

  /** The fast form refines the linear scan: what a trie of the list's 16-byte forms contains is what IsUsed finds. */
  lemma TrieMatchesScan(ip: Bytes, addrs: seq<Bytes>)
    requires IsIP(ip) && forall a :: a in addrs ==> IsIP(a)
    ensures To16(ip) in Canonical(addrs) <==> exists i :: 0 <= i < |addrs| && SameIP(ip, addrs[i])
  {
    forall i | 0 <= i < |addrs|
      ensures SameIP(ip, addrs[i]) <==> To16(ip) == To16(addrs[i])
    {
      SameIPIffSameTo16(ip, addrs[i]);
    }
    if To16(ip) in Canonical(addrs) {
      var a :| a in addrs && To16(a) == To16(ip);
      var i :| 0 <= i < |addrs| && addrs[i] == a;
      assert SameIP(ip, addrs[i]);
    }
  }

  method CandidateTaken(trie: Trie, ghost addrs: seq<Bytes>, cand: Bytes) returns (found: bool)
    requires trie.Contents() == Some(Canonical(addrs))
    requires |cand| == 16 && forall a :: a in addrs ==> IsIP(a)
    ensures found <==> Value(cand) in Taken(addrs)
  {
    CanonicalIsTaken(cand, addrs);
    found := trie.Contains(cand);
  }

  lemma CanonicalIsTaken(cand: Bytes, addrs: seq<Bytes>)
    requires |cand| == 16 && forall a :: a in addrs ==> IsIP(a)
    ensures cand in Canonical(addrs) <==> Value(cand) in Taken(addrs)
  {
    if Value(cand) in Taken(addrs) {
      var a :| a in addrs && Value(To16(a)) == Value(cand);
      ValueInjective(To16(a), cand);
    }
  }

  /** Where the scan stands: v is the candidate, every number tried so far is taken. */
  ghost predicate Scanning(taken: set<nat>, lo: nat, hi: nat, v: nat, wrapped: bool) {
    if wrapped then hi == MAX_IP && FirstFree(taken, lo, hi).None? && FirstFree(taken, 0, MAX_IP).Some?
                    && v <= FirstFree(taken, 0, MAX_IP).value
    else lo <= v && forall w: nat :: lo <= w < v ==> w in taken
  }

  /** A free candidate is the answer; past a taken one everything up to it is taken, also across the wrap. */
  lemma ScanStep(taken: set<nat>, lo: nat, hi: nat, v: nat, wrapped: bool)
    requires ScanEnds(taken, hi) && Scanning(taken, lo, hi, v, wrapped) && v <= hi <= MAX_IP
    ensures v !in taken ==> Allocated(taken, lo, hi) == Some(v)
    ensures v in taken ==> Scanning(taken, lo, hi, Following(v), wrapped || v == MAX_IP)
    ensures v in taken && v == MAX_IP ==> !wrapped
  {
    if v !in taken {
      FreeIsAnswer(taken, lo, hi, v, wrapped);
    }
  }

  lemma FreeIsAnswer(taken: set<nat>, lo: nat, hi: nat, v: nat, wrapped: bool)
    requires ScanEnds(taken, hi) && Scanning(taken, lo, hi, v, wrapped) && v <= hi <= MAX_IP && v !in taken
    ensures Allocated(taken, lo, hi) == Some(v)
  {}

  /** The number of the next candidate. */
  function Following(v: nat): nat {
    if v == MAX_IP then 0 else v + 1
  }

  lemma ScanLeavesRange(taken: set<nat>, lo: nat, hi: nat, v: nat, wrapped: bool)
    requires Scanning(taken, lo, hi, v, wrapped) && hi < v <= MAX_IP
    ensures Allocated(taken, lo, hi).None?
  {}

  /** The loop test of Allocate. */
  method NotBeyond(cand: Bytes, to: Bytes) returns (ok: bool)
    requires |cand| == 16 && |to| == 16
    ensures ok <==> Value(cand) <= Value(to)
  {
    var order := BytesCompare(cand, to);
    ok := order <= 0;
  }

  /** getNextIP on a 16-byte address, and the loop test on the result. */
  method Advance(cand: Bytes, to: Bytes) returns (next: Bytes, more: bool)
    requires |cand| == 16 && |to| == 16
    ensures |next| == 16 && Value(next) == Following(Value(cand))
    ensures more <==> Value(next) <= Value(to)
  {
    next := GetNextIP(cand);
    more := NotBeyond(next, to);
  }

  /** The loop of Allocate over the built trie. */
  method Scan(trie: Trie, ghost addrs: seq<Bytes>, range: Range) returns (r: Option<Bytes>)
    requires ValidRange(range) && (forall a :: a in addrs ==> IsIP(a)) && trie.Contents() == Some(Canonical(addrs))
    requires ScanEnds(Taken(addrs), Value(range.to))
    ensures IsAllocated(r, Allocated(Taken(addrs), Value(range.from), Value(range.to)))
  {
    var cand := range.from;
    ghost var taken, lo, hi := Taken(addrs), Value(range.from), Value(range.to);
    ghost var wrapped := false;
    var more := NotBeyond(cand, range.to);
    while more
      invariant |cand| == 16 && trie.Contents() == Some(Canonical(addrs))
      invariant more <==> Value(cand) <= hi
      invariant Scanning(taken, lo, hi, Value(cand), wrapped)
      decreases !wrapped, MAX_IP - Value(cand)
    {
      ScanStep(taken, lo, hi, Value(cand), wrapped);
      var found := CandidateTaken(trie, addrs, cand);
      if !found {
        return Some(cand);
      }
      wrapped := wrapped || Value(cand) == MAX_IP;
      cand, more := Advance(cand, range.to);
    }
    ScanLeavesRange(taken, lo, hi, Value(cand), wrapped);
    return None;
  }

  /** The 16-byte address of the number that the reference allocator answers. */
  ghost predicate IsAllocated(r: Option<Bytes>, spec: Option<nat>) {
    match spec
    case None => r == None
    case Some(v) => r.Some? && |r.value| == 16 && Value(r.value) == v
  }

  method Allocate(range: Range, addrs: seq<Bytes>) returns (r: Option<Bytes>)
    requires ValidRange(range) && forall a :: a in addrs ==> IsIP(a)
    requires ScanEnds(Taken(addrs), Value(range.to))
    ensures IsAllocated(r, Allocated(Taken(addrs), Value(range.from), Value(range.to)))
  {
    var trie := BuildTrie(addrs);
    r := Scan(trie, addrs, range);
  }

  /** A number is taken exactly when the address it stands for is in the list, in either form. */
  lemma TakenIff(addrs: seq<Bytes>, ip: Bytes)
    requires |ip| == 16 && forall a :: a in addrs ==> IsIP(a)
    ensures Value(ip) in Taken(addrs) <==> exists i :: 0 <= i < |addrs| && SameIP(ip, addrs[i])
  {
    CanonicalIsTaken(ip, addrs);
    TrieMatchesScan(ip, addrs);
  }

  ghost predicate AllTaken(taken: set<nat>, lo: int, hi: int) {
    forall w: nat :: lo <= w <= hi ==> w in taken
  }

  /** The answer is the least number of the range that is not taken. None means that the whole range is taken. Only
      when it is, and ends in all ones, the answer is the least number at all that is not taken. */
  lemma AllocatedIsLeast(taken: set<nat>, lo: nat, hi: nat)
    requires lo <= hi <= MAX_IP
    ensures match Allocated(taken, lo, hi)
            case None => AllTaken(taken, lo, hi)
            case Some(v) =>
              && v <= MAX_IP && v !in taken
              && (if AllTaken(taken, lo, hi) then hi == MAX_IP && AllTaken(taken, 0, v as int - 1)
                  else lo <= v <= hi && AllTaken(taken, lo, v as int - 1))
  {}

  /** New: both ends in the CIDR, in strict order. */
  method NewRange(c: Cidr, from: Bytes, to: Bytes) returns (r: Option<Range>)
    requires ValidCidr(c) && |from| == 16 && |to| == 16
    ensures r.Some? <==> Value(from) < Value(to) && InCidr(c, from) && InCidr(c, to)
    ensures r.Some? ==> r.value == Range(from, to)
  {
    var order := BytesCompare(from, to);
    if order >= 0 {
      return None;
    }
    if !InCidr(c, from) || !InCidr(c, to) {
      return None;
    }
    return Some(Range(from, to));
  }

  /** Between the ends, or one of them; never an unspecified address. */
  method RangeContains(range: Range, ip: Bytes) returns (r: bool)
    requires ValidRange(range) && IsIP(ip)
    ensures var v, lo, hi := Value(To16(ip)), Value(range.from), Value(range.to);
            && (lo <= hi ==> (r <==> !SameIP(ip, Zeros(4)) && !SameIP(ip, Zeros(16)) && lo <= v <= hi))
            && (lo > hi ==> (r <==> !SameIP(ip, Zeros(4)) && !SameIP(ip, Zeros(16)) && (v == lo || v == hi)))
  {
    if SameIP(ip, Zeros(4)) || SameIP(ip, Zeros(16)) {
      return false;
    }
    var isFrom := BytesCompare(range.from, ip);
    var isTo := BytesCompare(range.to, ip);
    if SameIP(range.from, ip) || SameIP(range.to, ip) {
      return true;
    }
    var atFrom := BytesCompare(ip, range.from);
    var atTo := BytesCompare(ip, range.to);
    return atFrom >= 0 && atTo <= 0;
  }

  /** With a checked range, an allocated address is one of the range and is accepted by the CIDR test of the alias
      step unless it is IPv4-mapped in an IPv6 network; only a full range that ends in all ones is different. */
  lemma AllocatedInCidr(c: Cidr, range: Range, taken: set<nat>, ip: Bytes)
    requires ValidCidr(c) && ValidRange(range) && |ip| == 16
    requires InCidr(c, range.from) && InCidr(c, range.to)
    requires FirstFree(taken, Value(range.from), Value(range.to)).Some? || Value(range.to) < MAX_IP
    requires Allocated(taken, Value(range.from), Value(range.to)) == Some(Value(ip))
    ensures Value(range.from) <= Value(ip) <= Value(range.to)
    ensures InCidr(c, ip) <==> (|NetworkNumber(c)| == 4 || To4(ip) == [])
  {
    RangeInCidr(c, range.from, ip, range.to);
  }

  ghost function Interval(lo: nat, hi: nat): (s: set<nat>)
    ensures forall w: nat :: w in s <==> lo <= w <= hi
    decreases hi - lo
  {
    if lo > hi then {} else if lo == hi then {lo} else {lo} + Interval(lo + 1, hi)
  }

  /** The allocator answers inside its range for every set of taken addresses exactly when the
      range does not end in the all-ones address or starts at zero. */
  lemma AllocateStaysInRangeIff(lo: nat, hi: nat)
    requires lo <= hi <= MAX_IP
    ensures (forall taken: set<nat> :: Allocated(taken, lo, hi).Some? ==> lo <= Allocated(taken, lo, hi).value <= hi)
            <==> (hi < MAX_IP || lo == 0)
  {
    if hi == MAX_IP && lo > 0 {
      var taken := Interval(lo, hi);
      assert FirstFree(taken, lo, hi).None?;
      assert 0 !in taken && FirstFree(taken, 0, MAX_IP) == Some(0);
      assert Allocated(taken, lo, hi) == Some(0);
    }
  }
}
