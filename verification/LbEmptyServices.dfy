/** Kernel services that are left without destinations: where they come from, and that Delete does not remove them. */
module LbEmptyServices {
  import opened Ipam
  import opened LbState
  import opened LbProofs
  import opened LbRuns

  ghost function EmptyServices(kernel: Kernel): set<SvcKey> {
    set k | k in kernel && kernel[k] == {}
  }

  /** In an agreed state the empty services are those that no stored target uses. */
  lemma EmptyIsUnused(cfg: Config, s: State)
    requires Agreed(cfg, s)
    ensures Services(cfg, Entries(s.store)) <= s.kernel.Keys
    ensures EmptyServices(s.kernel) == s.kernel.Keys - Services(cfg, Entries(s.store))
  {
    var used := Services(cfg, Entries(s.store));
    forall k | k in used
      ensures k in s.kernel && s.kernel[k] != {}
    {
      var e :| e in Entries(s.store) && SvcOf(cfg, e) == k;
      assert PairOf(cfg, e) in Image(cfg, Entries(s.store));
      assert PairOf(cfg, e) in Pairs(s.kernel);
    }
    forall k | k in s.kernel && s.kernel[k] != {}
      ensures k in used
    {
      var d :| d in s.kernel[k];
      assert Pair(k, d) in Pairs(s.kernel);
      var e :| e in Entries(s.store) && PairOf(cfg, e) == Pair(k, d);
    }
  }

  lemma ServicesWithout(cfg: Config, es: set<Entry>, gone: set<Entry>)
    requires gone <= es
    requires forall a, b :: a in gone && b in es - gone ==> SvcOf(cfg, a) != SvcOf(cfg, b)
    ensures Services(cfg, es - gone) == Services(cfg, es) - Services(cfg, gone)
  {
    forall k
      ensures k in Services(cfg, es - gone) <==> k in Services(cfg, es) && k !in Services(cfg, gone)
    {
      if k in Services(cfg, es) && k !in Services(cfg, gone) {
        var e :| e in es && SvcOf(cfg, e) == k;
        assert e in es - gone;
      }
    }
  }

  /** Delete leaves every empty service where it was, those of its own address included: they outlive their load
      balancer, while its other services go. */
  lemma DeleteKeepsEmptyServices(cfg: Config, s: State, name: string)
    requires ValidConfig(cfg) && Owned(cfg, s)
    ensures EmptyServices(DeleteStep(cfg, s, name).0.kernel) == EmptyServices(s.kernel)
  {
    StepKeepsOwned(cfg, s, Delete(name));
    if name in s.store {
      var s' := DeleteStep(cfg, s, name).0;
      var es, own := Entries(s.store), EntriesOf(name, s.store[name]);
      EmptyIsUnused(cfg, s);
      EmptyIsUnused(cfg, s');
      ComboKeysAreServices(cfg, name, s.store[name]);
      EntriesRemove(s.store, name);
      EntriesSplit(s.store, name);
      assert Entries(s'.store) == es - own;
      OwnedDeleteIsIsolated(cfg, s, name);
      ServicesWithout(cfg, es, own);
    }
  }

  /** A service at the address of a deleted load balancer stays in the kernel exactly when it was empty. */
  lemma SurvivesDeleteIff(cfg: Config, s: State, name: string, k: SvcKey)
    requires ValidConfig(cfg) && Owned(cfg, s) && name in s.store && k in s.kernel
    requires k.address == AddressKey(cfg, s.store[name])
    ensures k in DeleteStep(cfg, s, name).0.kernel <==> s.kernel[k] == {}
  {
    var s' := DeleteStep(cfg, s, name).0;
    DeleteKeepsEmptyServices(cfg, s, name);
    assert k in EmptyServices(s.kernel) <==> s.kernel[k] == {};
    assert k in EmptyServices(s'.kernel) <==> k in s'.kernel && s'.kernel[k] == {};
    DeleteIsClean(cfg, s, name);
    if k in s'.kernel {
      forall d | d in s'.kernel[k]
        ensures Pair(k, d) in Pairs(s'.kernel)
      {}
    }
  }

  /** AddTarget leaves a new empty service behind exactly when the kernel refuses the destination and the service
      was missing before; a success fills the service it uses. */
  lemma AddTargetEmptyServices(cfg: Config, s: State, name: string, port: int, t: Target, f: Faults)
    requires name in s.store
    ensures var (s', reply) := AddTargetStep(cfg, s, name, port, t, f);
            var svc := SvcOf(cfg, Entry(name, s.store[name].ipAddr, port, t));
            EmptyServices(s'.kernel)
            == if reply == Code(ERR_SUCCESS) then EmptyServices(s.kernel) - {svc}
               else if reply == Code(ERR_ADD_DESTINATION_FAILED) && svc !in s.kernel
               then EmptyServices(s.kernel) + {svc}
               else EmptyServices(s.kernel)
  {}

  /** DelTarget of a stored target leaves a new empty service behind exactly when the port list goes on with targets of
      the other protocol only. */
  lemma DelTargetEmptyServices(cfg: Config, s: State, name: string, port: int, t: Target)
    requires ValidConfig(cfg) && Owned(cfg, s) && name in s.store && t in TargetsAt(s.store[name], port)
    ensures var svc := SvcOf(cfg, Entry(name, s.store[name].ipAddr, port, t));
            var list := TargetsAt(s.store[name], port);
            svc !in EmptyServices(s.kernel)
            && EmptyServices(DelTargetStep(cfg, s, name, port, t).0.kernel)
               == if list != [t] && (forall u :: u in list && u != t ==> u.protocol != t.protocol)
                  then EmptyServices(s.kernel) + {svc} else EmptyServices(s.kernel)
  {
    DelTargetByServices(cfg, s, name, port, t);
    ServiceUsedElsewhereIff(cfg, s, name, port, t);
  }

  /** The same in terms of the services that the remaining entries use. */
  lemma DelTargetByServices(cfg: Config, s: State, name: string, port: int, t: Target)
    requires ValidConfig(cfg) && Owned(cfg, s) && name in s.store && t in TargetsAt(s.store[name], port)
    ensures var e := Entry(name, s.store[name].ipAddr, port, t);
            SvcOf(cfg, e) !in EmptyServices(s.kernel)
            && EmptyServices(DelTargetStep(cfg, s, name, port, t).0.kernel)
               == if TargetsAt(s.store[name], port) != [t] && SvcOf(cfg, e) !in Services(cfg, Entries(s.store) - {e})
                  then EmptyServices(s.kernel) + {SvcOf(cfg, e)} else EmptyServices(s.kernel)
  {
    var e := Entry(name, s.store[name].ipAddr, port, t);
    StepKeepsOwned(cfg, s, DelTarget(name, port, t));
    EmptyIsUnused(cfg, s);
    EmptyIsUnused(cfg, DelTargetStep(cfg, s, name, port, t).0);
    KeysAfterDelTarget(cfg, s, name, port, t);
    ServicesDropOne(cfg, Entries(s.store), e);
    var last := TargetsAt(s.store[name], port) == [t];
    var used, used' := Services(cfg, Entries(s.store)), Services(cfg, Entries(s.store) - {e});
    UnusedAfterDrop(s.kernel.Keys, used, used', SvcOf(cfg, e), last);
  }

  /** A service may leave the used ones, and leaves the table when it is dropped as the last of its list. */
  lemma UnusedAfterDrop<K>(keys: set<K>, used: set<K>, used': set<K>, k: K, last: bool)
    requires k in used && used <= keys && used' == (if k in used' then used else used - {k})
    requires used' <= (if last then keys - {k} else keys)
    ensures (if last then keys - {k} else keys) - used'
            == if !last && k !in used' then keys - used + {k} else keys - used
  {}

  lemma KeysAfterDelTarget(cfg: Config, s: State, name: string, port: int, t: Target)
    requires Agreed(cfg, s) && name in s.store && t in TargetsAt(s.store[name], port)
    ensures var e, s' := Entry(name, s.store[name].ipAddr, port, t), DelTargetStep(cfg, s, name, port, t).0;
            && e in Entries(s.store) && Entries(s'.store) == Entries(s.store) - {e}
            && SvcOf(cfg, e) in Services(cfg, Entries(s.store))
            && s'.kernel.Keys
               == (if TargetsAt(s.store[name], port) == [t] then s.kernel.Keys - {SvcOf(cfg, e)} else s.kernel.Keys)
  {
    StoredTargetIsMapped(cfg, s, name, port, t);
    StoredEntry(s.store, name, port, t);
    DroppedEntry(s.store, name, port, t);
    EmptyAfterDrop(s.store[name].targets[port], t);
  }

  /** Another stored target uses the service exactly when the port list has one of the same protocol. */
  lemma ServiceUsedElsewhereIff(cfg: Config, s: State, name: string, port: int, t: Target)
    requires ValidConfig(cfg) && Homes(cfg, s) && name in s.store && t in TargetsAt(s.store[name], port)
    ensures var e := Entry(name, s.store[name].ipAddr, port, t);
            SvcOf(cfg, e) in Services(cfg, Entries(s.store) - {e})
            <==> exists u :: u in TargetsAt(s.store[name], port) && u != t && u.protocol == t.protocol
  {
    var e := Entry(name, s.store[name].ipAddr, port, t);
    StoredEntry(s.store, name, port, t);
    if SvcOf(cfg, e) in Services(cfg, Entries(s.store) - {e}) {
      var a := OtherUser(cfg, Entries(s.store), e);
      SameServiceSamePort(cfg, s, a, e);
    }
    if u :| u in TargetsAt(s.store[name], port) && u != t && u.protocol == t.protocol {
      ListedUser(cfg, s.store, name, port, t, u);
    }
  }

  lemma OtherUser(cfg: Config, es: set<Entry>, e: Entry) returns (a: Entry)
    requires SvcOf(cfg, e) in Services(cfg, es - {e})
    ensures a in es && a != e && SvcOf(cfg, a) == SvcOf(cfg, e)
  {
    a :| a in es - {e} && SvcOf(cfg, a) == SvcOf(cfg, e);
  }

  lemma ListedUser(cfg: Config, store: map<string, LbInfo>, name: string, port: int, t: Target, u: Target)
    requires name in store && u in TargetsAt(store[name], port) && u != t && u.protocol == t.protocol
    ensures var e := Entry(name, store[name].ipAddr, port, t);
            SvcOf(cfg, e) in Services(cfg, Entries(store) - {e})
  {
    var e, a := Entry(name, store[name].ipAddr, port, t), Entry(name, store[name].ipAddr, port, u);
    StoredEntry(store, name, port, u);
    assert a in Entries(store) - {e} && SvcOf(cfg, a) == SvcOf(cfg, e);
  }

  lemma SameServiceSamePort(cfg: Config, s: State, a: Entry, e: Entry)
    requires ValidConfig(cfg) && Homes(cfg, s) && a in Entries(s.store) && e in Entries(s.store)
    requires SvcOf(cfg, a) == SvcOf(cfg, e) && a != e
    ensures a.target in TargetsAt(s.store[e.name], e.port) && a.target != e.target
    ensures a.target.protocol == e.target.protocol
  {
    OwnedServiceHasOneHome(cfg, s, a, e);
    EntryIsStored(s.store, a);
    EntryIsStored(s.store, e);
  }

  lemma ServicesDropOne(cfg: Config, es: set<Entry>, e: Entry)
    requires e in es
    ensures Services(cfg, es - {e})
            == if SvcOf(cfg, e) in Services(cfg, es - {e}) then Services(cfg, es)
               else Services(cfg, es) - {SvcOf(cfg, e)}
  {
    assert es == (es - {e}) + {e};
    ServicesAdd(cfg, es - {e}, e);
  }

  /** An accepted restart removes the empty services exactly when the kernel table was wiped. */
  lemma RestartEmptyServices(cfg: Config, s: State, link: set<LinkAddr>, wiped: bool, done: set<string>)
    requires ValidRange(cfg.range) && Agreed(cfg, s) && Accepted(cfg, s.store)
    ensures EmptyServices(Next(cfg, s, Restart(link, wiped, done)).kernel)
            == if wiped then {} else EmptyServices(s.kernel)
  {
    var s' := Next(cfg, s, Restart(link, wiped, done));
    AcceptedLosesNothing(cfg, State(s.store, link, TableAtRestart(s, wiped)), done);
    RestartAgreedIff(cfg, s, link, wiped, done);
    EmptyIsUnused(cfg, s);
    EmptyIsUnused(cfg, s');
  }
}
