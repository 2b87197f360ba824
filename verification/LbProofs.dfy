/** What each step of the server keeps: agreement of store and kernel, and exactly when a deletion breaks it. */
module LbProofs {
  import opened NetAddr
  import opened IpvsCodec
  import opened LbState

  // ---------- keys ----------

  lemma RawInjective(a: Bytes, b: Bytes)
    requires (a == [] || |a| == 16) && (b == [] || |b| == 16)
    requires RawIPData(a) == RawIPData(b)
    ensures a == b
  {}

  /** A service key determines the load balancer address, the cut port and the IP protocol. */
  lemma SvcKeyDetermines(cfg: Config, a: Entry, b: Entry)
    requires ValidConfig(cfg) && SvcOf(cfg, a) == SvcOf(cfg, b)
    ensures cfg.parse(a.ipAddr) == cfg.parse(b.ipAddr) && a.port % 0x1_0000 == b.port % 0x1_0000
    ensures a.target.protocol == UDP <==> b.target.protocol == UDP
  {}

  lemma SamePortInRange(p: int, q: int)
    requires PortInRange(p) && PortInRange(q) && p % 0x1_0000 == q % 0x1_0000
    ensures p == q
  {}

  lemma EntryIsStored(store: map<string, LbInfo>, a: Entry)
    requires a in Entries(store)
    ensures a.name in store && a.ipAddr == store[a.name].ipAddr
    ensures a.port in store[a.name].targets && a.target in store[a.name].targets[a.port]
  {}

  // ---------- entries under store updates ----------

  lemma EntriesPut(store: map<string, LbInfo>, n: string, lb: LbInfo)
    ensures Entries(store[n := lb]) == (set e | e in Entries(store) && e.name != n) + EntriesOf(n, lb)
  {
    var after := store[n := lb];
    forall e
      ensures e in Entries(after) <==> e in (set e' | e' in Entries(store) && e'.name != n) + EntriesOf(n, lb)
    {
      if e in EntriesOf(n, lb) { assert n in after; }
      if e in Entries(store) && e.name != n { assert e.name in after && e in EntriesOf(e.name, after[e.name]); }
    }
  }

  lemma EntriesRemove(store: map<string, LbInfo>, n: string)
    ensures Entries(store - {n}) == set e | e in Entries(store) && e.name != n
  {
    var after := store - {n};
    forall e
      ensures e in Entries(after) <==> e in Entries(store) && e.name != n
    {
      if e in Entries(store) && e.name != n { assert e.name in after && e in EntriesOf(e.name, after[e.name]); }
    }
  }

  lemma EntriesSplit(store: map<string, LbInfo>, n: string)
    requires n in store
    ensures Entries(store) == (set e | e in Entries(store) && e.name != n) + EntriesOf(n, store[n])
  {}

  lemma EntriesOfAdd(n: string, lb: LbInfo, port: int, t: Target)
    ensures var lb' := lb.(targets := lb.targets[port := TargetsAt(lb, port) + [t]]);
            EntriesOf(n, lb') == EntriesOf(n, lb) + {Entry(n, lb.ipAddr, port, t)}
  {}

  lemma {:induction false} WithoutMembers(list: seq<Target>, t: Target)
    requires NoDuplicates(list)
    ensures NoDuplicates(Without(list, t))
    ensures forall u :: u in Without(list, t) <==> u in list && u != t
  {
    if list != [] {
      assert forall i :: 0 <= i < |list[1..]| ==> list[1..][i] == list[i + 1];
      WithoutMembers(list[1..], t);
      forall u
        ensures u in Without(list, t) <==> u in list && u != t
      {
        assert list == [list[0]] + list[1..];
        if list[0] == t {
          assert t !in list[1..];
        }
      }
      if list[0] != t {
        var w := Without(list[1..], t);
        assert list[0] !in list[1..];
        assert forall j :: 0 <= j < |w| ==> w[j] in w;
        assert list[0] !in w;
      }
    }
  }

  lemma EntriesOfDrop(n: string, lb: LbInfo, port: int, t: Target)
    requires port in lb.targets && NoDuplicates(lb.targets[port])
    ensures EntriesOf(n, DropTarget(lb, port, t)) == EntriesOf(n, lb) - {Entry(n, lb.ipAddr, port, t)}
    ensures WellShaped(lb) ==> WellShaped(DropTarget(lb, port, t))
  {
    var rest, lb' := Without(lb.targets[port], t), DropTarget(lb, port, t);
    WithoutMembers(lb.targets[port], t);
    forall p, u
      ensures p in lb'.targets && u in lb'.targets[p]
              <==> p in lb.targets && u in lb.targets[p] && !(p == port && u == t)
    {
      if rest == [] && p == port {
        assert u !in rest;
      }
    }
  }

  // ---------- images ----------

  lemma ImageAdd(cfg: Config, es: set<Entry>, e: Entry)
    ensures Image(cfg, es + {e}) == Image(cfg, es) + {PairOf(cfg, e)}
  {}

  lemma ImageRemove(cfg: Config, es: set<Entry>, gone: set<Entry>)
    requires Injective(cfg, es) && gone <= es
    ensures Image(cfg, es - gone) == Image(cfg, es) - Image(cfg, gone)
  {}

  // ---------- the creating steps keep agreement ----------

  lemma PairsMapTarget(k: Kernel, svc: SvcKey, dst: DstKey, f: Faults)
    ensures var (k', m) := MapTargetStep(k, svc, dst, f);
            && Pairs(k') == (if m.Mapped? then Pairs(k) + {Pair(svc, dst)} else Pairs(k))
            && (m.Mapped? ==> Pair(svc, dst) !in Pairs(k))
  {}

  lemma CreateKeepsAgreed(cfg: Config, s: State, name: string, requested: string, f: Faults)
    requires ValidConfig(cfg) && Agreed(cfg, s)
    ensures Agreed(cfg, CreateStep(cfg, s, name, requested, f).0)
  {
    var s' := CreateStep(cfg, s, name, requested, f).0;
    if s' != s {
      var lb := s'.store[name];
      EntriesPut(s.store, name, lb);
      assert EntriesOf(name, lb) == {};
      assert Entries(s'.store) == Entries(s.store);
    }
  }

  lemma AddTargetKeepsAgreed(cfg: Config, s: State, name: string, port: int, t: Target, f: Faults)
    requires Agreed(cfg, s)
    ensures Agreed(cfg, AddTargetStep(cfg, s, name, port, t, f).0)
  {
    if name in s.store && t !in TargetsAt(s.store[name], port) {
      var lb := s.store[name];
      var e := Entry(name, lb.ipAddr, port, t);
      var (k, m) := MapTargetStep(s.kernel, SvcOf(cfg, e), DstOf(cfg, e), f);
      PairsMapTarget(s.kernel, SvcOf(cfg, e), DstOf(cfg, e), f);
      if m.Mapped? {
        AddedEntry(cfg, s.store, name, port, t);
        ImageAdd(cfg, Entries(s.store), e);
        NewPairKeepsInjective(cfg, Entries(s.store), e);
      }
    }
  }

  /** A target whose pair the kernel does not hold is stored and mapped. */
  lemma AddStores(cfg: Config, s: State, name: string, port: int, t: Target)
    requires name in s.store && t !in TargetsAt(s.store[name], port)
    requires PairOf(cfg, Entry(name, s.store[name].ipAddr, port, t)) !in Pairs(s.kernel)
    ensures var (s', reply) := AddTargetStep(cfg, s, name, port, t, NO_FAULTS);
            var lb := s.store[name];
            && reply == Code(ERR_SUCCESS) && s'.link == s.link
            && Pairs(s'.kernel) == Pairs(s.kernel) + {PairOf(cfg, Entry(name, lb.ipAddr, port, t))}
            && s'.store == s.store[name := lb.(targets := lb.targets[port := TargetsAt(lb, port) + [t]])]
  {}

  lemma NewPairKeepsInjective(cfg: Config, es: set<Entry>, e: Entry)
    requires Injective(cfg, es) && PairOf(cfg, e) !in Image(cfg, es)
    ensures Injective(cfg, es + {e})
  {}

  lemma AddedEntry(cfg: Config, store: map<string, LbInfo>, name: string, port: int, t: Target)
    requires name in store && WellShaped(store[name]) && t !in TargetsAt(store[name], port)
    ensures var lb := store[name];
            var lb' := lb.(targets := lb.targets[port := TargetsAt(lb, port) + [t]]);
            && Entries(store[name := lb']) == Entries(store) + {Entry(name, lb.ipAddr, port, t)}
            && WellShaped(lb')
  {
    var lb := store[name];
    var lb' := lb.(targets := lb.targets[port := TargetsAt(lb, port) + [t]]);
    EntriesPut(store, name, lb');
    EntriesSplit(store, name);
    EntriesOfAdd(name, lb, port, t);
  }

  // ---------- deletion: exactly when agreement survives ----------

  /** No stored target of another load balancer uses a service that Delete removes. */
  ghost predicate DeleteIsolated(cfg: Config, s: State, name: string) {
    name in s.store ==>
      forall e :: e in Entries(s.store) && e.name != name
                  ==> SvcOf(cfg, e) !in ComboKeys(cfg, s.store[name], Combos(s.store[name]))
  }

  /** When DelTarget empties a port list, no other stored target uses the service it removes. */
  ghost predicate DelTargetIsolated(cfg: Config, s: State, name: string, port: int, t: Target) {
    name in s.store && TargetsAt(s.store[name], port) == [t] ==>
      var gone := Entry(name, s.store[name].ipAddr, port, t);
      forall e :: e in Entries(s.store) && e != gone ==> SvcOf(cfg, e) != SvcOf(cfg, gone)
  }

  lemma PairsRemoveServices(k: Kernel, gone: set<SvcKey>)
    ensures Pairs(k - gone) == set x | x in Pairs(k) && x.svc !in gone
  {}

  lemma ComboKeysAreServices(cfg: Config, n: string, lb: LbInfo)
    ensures ComboKeys(cfg, lb, Combos(lb)) == Services(cfg, EntriesOf(n, lb))
  {
    forall k
      ensures k in ComboKeys(cfg, lb, Combos(lb)) <==> k in Services(cfg, EntriesOf(n, lb))
    {
      if k in ComboKeys(cfg, lb, Combos(lb)) {
        var c :| c in Combos(lb) && ComboKey(cfg, lb, c) == k;
        var p, t :| p in lb.targets && t in lb.targets[p] && c == (p, t.protocol);
        assert Entry(n, lb.ipAddr, p, t) in EntriesOf(n, lb);
      }
      if k in Services(cfg, EntriesOf(n, lb)) {
        var e :| e in EntriesOf(n, lb) && SvcOf(cfg, e) == k;
        assert (e.port, e.target.protocol) in Combos(lb);
        assert ComboKey(cfg, lb, (e.port, e.target.protocol)) == k;
      }
    }
  }

  /** Delete keeps agreement exactly when it is isolated. */
  lemma DeleteAgreedIff(cfg: Config, s: State, name: string)
    requires Agreed(cfg, s)
    ensures Agreed(cfg, DeleteStep(cfg, s, name).0) <==> DeleteIsolated(cfg, s, name)
  {
    if name in s.store {
      var lb, es := s.store[name], Entries(s.store);
      var keys, own := ComboKeys(cfg, lb, Combos(lb)), EntriesOf(name, lb);
      var s' := DeleteStep(cfg, s, name).0;
      EntriesRemove(s.store, name);
      EntriesSplit(s.store, name);
      PairsRemoveServices(s.kernel, keys);
      ComboKeysAreServices(cfg, name, lb);
      assert Entries(s'.store) == es - own;
      if DeleteIsolated(cfg, s, name) {
        ImageRemove(cfg, es, own);
        forall x
          ensures x in Pairs(s'.kernel) <==> x in Image(cfg, es - own)
        {
          if x in Image(cfg, es) {
            var e :| e in es && PairOf(cfg, e) == x;
            if e in own { assert x in Image(cfg, own); } else { assert e in es - own; }
          }
        }
      } else {
        var e :| e in es && e.name != name && SvcOf(cfg, e) in keys;
        assert e in es - own;
        assert PairOf(cfg, e) in Image(cfg, Entries(s'.store)) && PairOf(cfg, e) !in Pairs(s'.kernel);
      }
    }
  }

  lemma PairsDropDestination(k: Kernel, svc: SvcKey, dst: DstKey)
    requires svc in k
    ensures Pairs(k[svc := k[svc] - {dst}]) == Pairs(k) - {Pair(svc, dst)}
  {}

  lemma StoredEntry(store: map<string, LbInfo>, name: string, port: int, t: Target)
    requires name in store && t in TargetsAt(store[name], port)
    ensures Entry(name, store[name].ipAddr, port, t) in Entries(store)
  {
    assert Entry(name, store[name].ipAddr, port, t) in EntriesOf(name, store[name]);
  }

  /** In an agreed state the target's destination is there, so DelTarget succeeds. */
  lemma StoredTargetIsMapped(cfg: Config, s: State, name: string, port: int, t: Target)
    requires Agreed(cfg, s) && name in s.store && t in TargetsAt(s.store[name], port)
    ensures var e := Entry(name, s.store[name].ipAddr, port, t);
            SvcOf(cfg, e) in s.kernel && DstOf(cfg, e) in s.kernel[SvcOf(cfg, e)]
    ensures DelTargetStep(cfg, s, name, port, t).1 == Code(ERR_SUCCESS)
  {
    var e := Entry(name, s.store[name].ipAddr, port, t);
    StoredEntry(s.store, name, port, t);
    assert PairOf(cfg, e) in Pairs(s.kernel);
  }

  lemma DroppedEntry(store: map<string, LbInfo>, name: string, port: int, t: Target)
    requires name in store && WellShaped(store[name]) && t in TargetsAt(store[name], port)
    ensures var lb := store[name];
            && Entries(store[name := DropTarget(lb, port, t)]) == Entries(store) - {Entry(name, lb.ipAddr, port, t)}
            && WellShaped(DropTarget(lb, port, t))
  {
    EntriesPut(store, name, DropTarget(store[name], port, t));
    EntriesSplit(store, name);
    EntriesOfDrop(name, store[name], port, t);
  }

  lemma EmptyAfterDrop(list: seq<Target>, t: Target)
    requires t in list
    ensures Without(list, t) == [] <==> list == [t]
  {}

  /** DelTarget keeps agreement exactly when it is isolated. */
  lemma DelTargetAgreedIff(cfg: Config, s: State, name: string, port: int, t: Target)
    requires Agreed(cfg, s)
    ensures Agreed(cfg, DelTargetStep(cfg, s, name, port, t).0) <==> DelTargetIsolated(cfg, s, name, port, t)
  {
    if name in s.store && t in TargetsAt(s.store[name], port) {
      var lb, es := s.store[name], Entries(s.store);
      var e := Entry(name, lb.ipAddr, port, t);
      var svc, dst := SvcOf(cfg, e), DstOf(cfg, e);
      var s' := DelTargetStep(cfg, s, name, port, t).0;
      StoredTargetIsMapped(cfg, s, name, port, t);
      StoredEntry(s.store, name, port, t);
      DroppedEntry(s.store, name, port, t);
      PairsDropDestination(s.kernel, svc, dst);
      ImageRemove(cfg, es, {e});
      assert Image(cfg, {e}) == {PairOf(cfg, e)};
      EmptyAfterDrop(lb.targets[port], t);
      var k := s.kernel[svc := s.kernel[svc] - {dst}];
      if Without(lb.targets[port], t) == [] {
        PairsRemoveServices(k, {svc});
        if DelTargetIsolated(cfg, s, name, port, t) {
          assert forall x :: x in Image(cfg, es - {e}) ==> x.svc != svc;
          assert Pairs(s'.kernel) == Image(cfg, es - {e});
        } else {
          var other :| other in es && other != e && SvcOf(cfg, other) == svc;
          assert other in es - {e};
          assert PairOf(cfg, other) in Image(cfg, Entries(s'.store)) && PairOf(cfg, other) !in Pairs(s'.kernel);
        }
      }
    } else if name in s.store {
      assert TargetsAt(s.store[name], port) != [t];
    }
  }

  /** What AddTarget answers and does in an agreed state: its code says whether the entry was new, and only a
      success changes the stored entries and the kernel's destinations, each by that entry. */
  lemma AddTargetOutcome(cfg: Config, s: State, name: string, port: int, t: Target, f: Faults)
    requires Agreed(cfg, s)
    ensures var (s', reply) := AddTargetStep(cfg, s, name, port, t, f);
            && s'.link == s.link
            && (reply == Code(ERR_NO_SUCH_LB) <==> name !in s.store)
            && (name in s.store ==>
                  var e := Entry(name, s.store[name].ipAddr, port, t);
                  && (reply == Code(ERR_TARGET_ALREADY_MAPPED) <==> e in Entries(s.store))
                  && (reply == Code(ERR_SUCCESS) ==>
                        e !in Entries(s.store) && Entries(s'.store) == Entries(s.store) + {e}
                        && PairOf(cfg, e) !in Pairs(s.kernel) && Pairs(s'.kernel) == Pairs(s.kernel) + {PairOf(cfg, e)})
                  && (reply == RpcError ==> f.service))
            && (reply != Code(ERR_SUCCESS) ==> s'.store == s.store && Pairs(s'.kernel) == Pairs(s.kernel))
  {
    if name in s.store {
      var e := Entry(name, s.store[name].ipAddr, port, t);
      assert e in Entries(s.store) <==> e in EntriesOf(name, s.store[name]);
      assert e in EntriesOf(name, s.store[name]) <==> t in TargetsAt(s.store[name], port);
      PairsMapTarget(s.kernel, SvcOf(cfg, e), DstOf(cfg, e), f);
      if t !in TargetsAt(s.store[name], port) {
        AddedEntry(cfg, s.store, name, port, t);
      }
    }
  }

  /** What DelTarget answers and does in an agreed state: 0 exactly for a stored entry, which is then gone from the
      store with its destination; anything else changes nothing. */
  lemma DelTargetOutcome(cfg: Config, s: State, name: string, port: int, t: Target)
    requires Agreed(cfg, s)
    ensures var (s', reply) := DelTargetStep(cfg, s, name, port, t);
            && s'.link == s.link
            && (reply == Code(ERR_NO_SUCH_LB) <==> name !in s.store)
            && (name in s.store ==>
                  var e := Entry(name, s.store[name].ipAddr, port, t);
                  && (reply == Code(ERR_SUCCESS) <==> e in Entries(s.store))
                  && (reply == Code(ERR_TARGET_NOT_MAPPED) <==> e !in Entries(s.store))
                  && (reply == Code(ERR_SUCCESS) ==>
                        Entries(s'.store) == Entries(s.store) - {e} && PairOf(cfg, e) !in Pairs(s'.kernel)))
            && (reply != Code(ERR_SUCCESS) ==> s' == s)
  {
    if name in s.store {
      var e := Entry(name, s.store[name].ipAddr, port, t);
      assert e in Entries(s.store) <==> e in EntriesOf(name, s.store[name]);
      assert e in EntriesOf(name, s.store[name]) <==> t in TargetsAt(s.store[name], port);
      if t in TargetsAt(s.store[name], port) {
        StoredTargetIsMapped(cfg, s, name, port, t);
        DroppedEntry(s.store, name, port, t);
        PairsDropDestination(s.kernel, SvcOf(cfg, e), DstOf(cfg, e));
      }
    }
  }

  // ---------- merging: Restore ----------

  lemma PairsMerge(cfg: Config, k: Kernel, es: set<Entry>)
    ensures Pairs(Merge(cfg, k, es)) == Pairs(k) + Image(cfg, es)
  {
    var m := Merge(cfg, k, es);
    forall x
      ensures x in Pairs(m) <==> x in Pairs(k) || x in Image(cfg, es)
    {
      assert x in Pairs(m) <==> x.svc in m && x.dst in m[x.svc];
      assert x in Pairs(k) <==> x.svc in k && x.dst in k[x.svc];
      if x in Image(cfg, es) {
        var e :| e in es && PairOf(cfg, e) == x;
        assert SvcOf(cfg, e) in Services(cfg, es);
      }
      if x in Pairs(m) && x !in Pairs(k) {
        var e :| e in es && SvcOf(cfg, e) == x.svc && DstOf(cfg, e) == x.dst;
        assert PairOf(cfg, e) == x;
      }
    }
  }

  lemma MergeNothing(cfg: Config, k: Kernel)
    ensures Merge(cfg, k, {}) == k
  {
    assert Services(cfg, {}) == {};
    forall key | key in k
      ensures Merge(cfg, k, {})[key] == k[key]
    {}
  }

  lemma ServicesAdd(cfg: Config, es: set<Entry>, e: Entry)
    ensures Services(cfg, es + {e}) == Services(cfg, es) + {SvcOf(cfg, e)}
  {}

  lemma DestsForAdd(cfg: Config, es: set<Entry>, e: Entry, svc: SvcKey)
    ensures DestsFor(cfg, es + {e}, svc)
            == DestsFor(cfg, es, svc) + (if SvcOf(cfg, e) == svc then {DstOf(cfg, e)} else {})
  {}

  lemma MergedAt(cfg: Config, k: Kernel, es: set<Entry>, key: SvcKey)
    ensures DestsAt(Merge(cfg, k, es), key) == DestsAt(k, key) + DestsFor(cfg, es, key)
  {}

  lemma MappedAt(k: Kernel, svc: SvcKey, dst: DstKey, key: SvcKey)
    ensures var (r, m) := MapTargetStep(k, svc, dst, NO_FAULTS);
            && !m.Failed? && r.Keys == k.Keys + {svc}
            && DestsAt(r, key) == DestsAt(k, key) + (if key == svc then {dst} else {})
  {}

  lemma SameKernel(a: Kernel, b: Kernel)
    requires a.Keys == b.Keys && forall key :: DestsAt(a, key) == DestsAt(b, key)
    ensures a == b
  {
    forall key | key in a
      ensures a[key] == b[key]
    {
      assert DestsAt(a, key) == DestsAt(b, key);
    }
  }

  lemma MergeOneMoreAt(cfg: Config, k: Kernel, es: set<Entry>, e: Entry, key: SvcKey)
    ensures DestsAt(MapTargetStep(Merge(cfg, k, es), SvcOf(cfg, e), DstOf(cfg, e), NO_FAULTS).0, key)
            == DestsAt(Merge(cfg, k, es + {e}), key)
  {
    DestsForAdd(cfg, es, e, key);
    MergedAt(cfg, k, es, key);
    MergedAt(cfg, k, es + {e}, key);
    MappedAt(Merge(cfg, k, es), SvcOf(cfg, e), DstOf(cfg, e), key);
  }

  lemma MergeKeys(cfg: Config, k: Kernel, es: set<Entry>, e: Entry)
    ensures Merge(cfg, k, es + {e}).Keys == Merge(cfg, k, es).Keys + {SvcOf(cfg, e)}
  {
    ServicesAdd(cfg, es, e);
  }

  /** Mapping one more entry, in any order, is merging one more entry; a refused duplicate changes nothing. */
  lemma MergeOneMore(cfg: Config, k: Kernel, es: set<Entry>, e: Entry)
    ensures MapTargetStep(Merge(cfg, k, es), SvcOf(cfg, e), DstOf(cfg, e), NO_FAULTS).0
            == Merge(cfg, k, es + {e})
    ensures !MapTargetStep(Merge(cfg, k, es), SvcOf(cfg, e), DstOf(cfg, e), NO_FAULTS).1.Failed?
  {
    var r := MapTargetStep(Merge(cfg, k, es), SvcOf(cfg, e), DstOf(cfg, e), NO_FAULTS).0;
    forall key ensures DestsAt(r, key) == DestsAt(Merge(cfg, k, es + {e}), key) { MergeOneMoreAt(cfg, k, es, e, key); }
    MappedAt(Merge(cfg, k, es), SvcOf(cfg, e), DstOf(cfg, e), SvcOf(cfg, e));
    MergeKeys(cfg, k, es, e);
    SameKernel(r, Merge(cfg, k, es + {e}));
  }

  /** Merging what is already there changes nothing. */
  lemma MergeTwice(cfg: Config, k: Kernel, es: set<Entry>)
    ensures Merge(cfg, Merge(cfg, k, es), es) == Merge(cfg, k, es)
  {}

  /** Restore from any kernel table ends with that table's destinations and the image of the store, keeps every
      alias and adds those of the store, and done twice is done once. */
  lemma RestoreMonotoneIdempotent(cfg: Config, s: State)
    ensures Pairs(Restored(cfg, s).kernel) == Pairs(s.kernel) + Image(cfg, Entries(s.store))
    ensures s.kernel.Keys <= Restored(cfg, s).kernel.Keys && s.link <= Restored(cfg, s).link
    ensures Restored(cfg, Restored(cfg, s)) == Restored(cfg, s)
  {
    PairsMerge(cfg, s.kernel, Entries(s.store));
    MergeTwice(cfg, s.kernel, Entries(s.store));
  }

  lemma EntriesOfPart(store: map<string, LbInfo>, part: map<string, LbInfo>)
    requires forall n :: n in part ==> n in store && part[n] == store[n]
    ensures Entries(part) == set e | e in Entries(store) && e.name in part
  {
    forall e
      ensures e in Entries(part) <==> e in Entries(store) && e.name in part
    {
      if e in Entries(part) { assert e.name in part && e in EntriesOf(e.name, store[e.name]); }
      if e in Entries(store) && e.name in part { assert e in EntriesOf(e.name, part[e.name]); }
    }
  }

  /** Every stored load balancer that is not brought back has no targets. */
  ghost predicate NothingLost(cfg: Config, store: map<string, LbInfo>, done: set<string>) {
    forall n :: n in store && n !in RestoredPart(cfg, store, done) ==> store[n].targets == map[]
  }

  lemma PartHasAllEntriesIff(cfg: Config, store: map<string, LbInfo>, done: set<string>)
    requires forall n :: n in store ==> WellShaped(store[n])
    ensures Entries(RestoredPart(cfg, store, done)) <= Entries(store)
    ensures Entries(RestoredPart(cfg, store, done)) == Entries(store) <==> NothingLost(cfg, store, done)
  {
    var part := RestoredPart(cfg, store, done);
    EntriesOfPart(store, part);
    if Entries(part) == Entries(store) {
      forall n | n in store && n !in part
        ensures store[n].targets == map[]
      {
        forall p | p in store[n].targets
          ensures false
        {
          StoredEntry(store, n, p, store[n].targets[p][0]);
        }
      }
    }
  }

  lemma ImageOfPartIff(cfg: Config, part: set<Entry>, es: set<Entry>)
    requires Injective(cfg, es) && part <= es
    ensures Image(cfg, part) == Image(cfg, es) <==> part == es
    ensures Image(cfg, part) <= Image(cfg, es)
  {
    if e :| e in es && e !in part {
      assert PairOf(cfg, e) in Image(cfg, es);
    }
  }

  /** The kernel table a restart finds: emptied when the machine went down, else as the server left it. */
  function TableAtRestart(s: State, wiped: bool): Kernel {
    if wiped then map[] else s.kernel
  }

  /** The destinations after a restart of an agreed state. */
  lemma PairsAfterRestart(cfg: Config, s: State, wiped: bool, done: set<string>)
    requires Agreed(cfg, s)
    ensures var es, part := Entries(s.store), Entries(RestoredPart(cfg, s.store, done));
            Pairs(Merge(cfg, TableAtRestart(s, wiped), part)) == Image(cfg, if wiped then part else es)
  {
    var es, part := Entries(s.store), Entries(RestoredPart(cfg, s.store, done));
    PartHasAllEntriesIff(cfg, s.store, done);
    ImageOfPartIff(cfg, part, es);
    PairsMerge(cfg, TableAtRestart(s, wiped), part);
    assert Pairs(map[]) == {};
  }

  /** A restart keeps agreement exactly when the table was kept or no load balancer with targets is left out. */
  lemma RestartAgreedIff(cfg: Config, s: State, link: set<LinkAddr>, wiped: bool, done: set<string>)
    requires Agreed(cfg, s)
    ensures Agreed(cfg, RestoreStep(cfg, State(s.store, link, TableAtRestart(s, wiped)), done).0)
            <==> (wiped ==> NothingLost(cfg, s.store, done))
  {
    PairsAfterRestart(cfg, s, wiped, done);
    PartHasAllEntriesIff(cfg, s.store, done);
    ImageOfPartIff(cfg, Entries(RestoredPart(cfg, s.store, done)), Entries(s.store));
  }

  lemma AcceptedLosesNothing(cfg: Config, s: State, done: set<string>)
    requires Accepted(cfg, s.store)
    ensures NothingLost(cfg, s.store, done) && RestoreStep(cfg, s, done) == (Restored(cfg, s), true)
  {}

  /** Crash recovery: from an agreed, accepted store, a wiped kernel and whatever link, Restore succeeds and gives
      back the same destinations, with no service left empty, and an alias for every load balancer. */
  lemma CrashRecovery(cfg: Config, s: State, link: set<LinkAddr>, done: set<string>)
    requires Agreed(cfg, s) && Accepted(cfg, s.store)
    ensures var (r, ok) := RestoreStep(cfg, State(s.store, link, map[]), done);
            && ok && Agreed(cfg, r) && Pairs(r.kernel) == Pairs(s.kernel)
            && (forall k :: k in r.kernel ==> r.kernel[k] != {})
            && (forall n :: n in s.store ==> AliasOf(cfg, s.store[n].ipAddr) in r.link)
  {
    AcceptedLosesNothing(cfg, s, done);
    RestartAgreedIff(cfg, s, link, true, done);
    MergedFromNothing(cfg, Entries(s.store));
  }

  lemma MergedFromNothing(cfg: Config, es: set<Entry>)
    ensures forall k :: k in Merge(cfg, map[], es) ==> Merge(cfg, map[], es)[k] != {}
  {
    var m := Merge(cfg, map[], es);
    forall k | k in m
      ensures m[k] != {}
    {
      assert k in Services(cfg, es);
      var e :| e in es && SvcOf(cfg, e) == k;
      assert DstOf(cfg, e) in m[k];
    }
  }
}
