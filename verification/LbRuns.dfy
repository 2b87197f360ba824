/** Whole runs of the load balancer server. */
module LbRuns {
  import opened NetAddr
  import opened CidrBlocks
  import opened Ipam
  import opened LbState
  import opened LbProofs

  /** A handler call, or a restart that runs Restore: the link is whatever it is, the kernel table is wiped or kept.
      When an address is refused the server exits after bringing back some load balancers, `done`. */
  datatype Step =
    | Create(name: string, requested: string, faults: Faults)
    | Delete(name: string)
    | AddTarget(name: string, port: int, target: Target, faults: Faults)
    | DelTarget(name: string, port: int, target: Target)
    | Restart(link: set<LinkAddr>, wiped: bool, done: set<string>)

  ghost function Next(cfg: Config, s: State, step: Step): State
    requires ValidRange(cfg.range)
  {
    match step
    case Create(name, requested, f) => CreateStep(cfg, s, name, requested, f).0
    case Delete(name) => DeleteStep(cfg, s, name).0
    case AddTarget(name, port, t, f) => AddTargetStep(cfg, s, name, port, t, f).0
    case DelTarget(name, port, t) => DelTargetStep(cfg, s, name, port, t).0
    case Restart(link, wiped, done) => RestoreStep(cfg, State(s.store, link, TableAtRestart(s, wiped)), done).0
  }

  ghost function Run(cfg: Config, s: State, steps: seq<Step>): State
    requires ValidRange(cfg.range)
    decreases |steps|
  {
    if steps == [] then s else Run(cfg, Next(cfg, s, steps[0]), steps[1..])
  }

  /** An empty system: nothing stored, no destination in the kernel. */
  ghost predicate Empty(s: State) {
    s.store == map[] && Pairs(s.kernel) == {} && ValidLink(s.link)
  }

  // ---------- agreement, and exactly when it survives ----------

  ghost predicate Isolated(cfg: Config, s: State, step: Step) {
    match step
    case Delete(name) => DeleteIsolated(cfg, s, name)
    case DelTarget(name, port, t) => DelTargetIsolated(cfg, s, name, port, t)
    case Restart(_, wiped, done) => wiped ==> NothingLost(cfg, s.store, done)
    case _ => true
  }

  lemma EmptyAgrees(cfg: Config, s: State)
    requires Empty(s)
    ensures Agreed(cfg, s) && Owned(cfg, s) && Accepted(cfg, s.store)
  {}

  lemma StepAgreedIff(cfg: Config, s: State, step: Step)
    requires ValidConfig(cfg) && Agreed(cfg, s)
    ensures Agreed(cfg, Next(cfg, s, step)) <==> Isolated(cfg, s, step)
  {
    match step
    case Create(name, requested, f) => CreateKeepsAgreed(cfg, s, name, requested, f);
    case Delete(name) => DeleteAgreedIff(cfg, s, name);
    case AddTarget(name, port, t, f) => AddTargetKeepsAgreed(cfg, s, name, port, t, f);
    case DelTarget(name, port, t) => DelTargetAgreedIff(cfg, s, name, port, t);
    case Restart(link, wiped, done) => RestartAgreedIff(cfg, s, link, wiped, done);
  }

  lemma StepKeepsAccepted(cfg: Config, s: State, step: Step)
    requires ValidRange(cfg.range) && Accepted(cfg, s.store)
    ensures Accepted(cfg, Next(cfg, s, step).store)
    ensures step.Restart? ==> Isolated(cfg, s, step)
  {
    if step.Restart? {
      AcceptedLosesNothing(cfg, s, step.done);
    }
  }

  /** Create accepts only addresses of the CIDR, so under an unchanged configuration Restore succeeds at every
      point of every run from an empty system, whatever the handlers were asked. */
  lemma {:induction false} RestoreNeverFails(cfg: Config, s: State, steps: seq<Step>, done: set<string>)
    requires ValidRange(cfg.range) && Accepted(cfg, s.store)
    ensures RestoreStep(cfg, Run(cfg, s, steps), done).1
    decreases |steps|
  {
    if steps != [] {
      StepKeepsAccepted(cfg, s, steps[0]);
      RestoreNeverFails(cfg, Next(cfg, s, steps[0]), steps[1..], done);
    }
  }

  ghost predicate AlwaysAgreed(cfg: Config, s: State, steps: seq<Step>)
    requires ValidRange(cfg.range)
    decreases |steps|
  {
    Agreed(cfg, s) && (steps != [] ==> AlwaysAgreed(cfg, Next(cfg, s, steps[0]), steps[1..]))
  }

  ghost predicate AlwaysIsolated(cfg: Config, s: State, steps: seq<Step>)
    requires ValidRange(cfg.range)
    decreases |steps|
  {
    steps != [] ==> Isolated(cfg, s, steps[0]) && AlwaysIsolated(cfg, Next(cfg, s, steps[0]), steps[1..])
  }

  /** Store and kernel agree throughout a run, whatever ports, addresses, kernel refusals, restarts and refused
      addresses occur in it, if and only if each deletion in it removes no service that another stored target uses
      and each restart from a wiped kernel leaves out no load balancer with targets. */
  lemma {:induction false} RunAgreedIff(cfg: Config, s: State, steps: seq<Step>)
    requires ValidConfig(cfg) && Agreed(cfg, s)
    ensures AlwaysAgreed(cfg, s, steps) <==> AlwaysIsolated(cfg, s, steps)
    decreases |steps|
  {
    if steps != [] {
      StepAgreedIff(cfg, s, steps[0]);
      if Isolated(cfg, s, steps[0]) {
        RunAgreedIff(cfg, Next(cfg, s, steps[0]), steps[1..]);
      }
    }
  }

  // ---------- ordinary runs ----------

  /** What callers promise: an explicitly requested address is not held by another load balancer; ports are
      16-bit and protocols are TCP or UDP. The link at a restart is unconstrained. */
  ghost predicate Admissible(cfg: Config, s: State, step: Step) {
    match step
    case Create(name, requested, _) =>
      requested != "" ==> forall n :: n in s.store ==> cfg.parse(s.store[n].ipAddr) != cfg.parse(requested)
    case AddTarget(_, port, t, _) => PortInRange(port) && DeclaredProtocol(t.protocol)
    case Restart(link, _, _) => ValidLink(link)
    case _ => true
  }

  ghost predicate AdmissibleRun(cfg: Config, s: State, steps: seq<Step>)
    requires ValidRange(cfg.range)
    decreases |steps|
  {
    steps != [] ==> Admissible(cfg, s, steps[0]) && AdmissibleRun(cfg, Next(cfg, s, steps[0]), steps[1..])
  }

  /** Two stored targets of one service belong to one port of one load balancer. */
  lemma OwnedServiceHasOneHome(cfg: Config, s: State, a: Entry, b: Entry)
    requires ValidConfig(cfg) && Homes(cfg, s) && a in Entries(s.store) && b in Entries(s.store)
    requires SvcOf(cfg, a) == SvcOf(cfg, b)
    ensures a.name == b.name && a.port == b.port && a.target.protocol == b.target.protocol
  {
    SvcKeyDetermines(cfg, a, b);
    EntryIsStored(s.store, a);
    EntryIsStored(s.store, b);
    assert a.name == b.name;
    assert Housed(cfg, s, s.store[a.name]);
    SamePortInRange(a.port, b.port);
  }

  lemma OwnedDeleteIsIsolated(cfg: Config, s: State, name: string)
    requires ValidConfig(cfg) && Homes(cfg, s)
    ensures DeleteIsolated(cfg, s, name)
  {
    if name in s.store {
      ComboKeysAreServices(cfg, name, s.store[name]);
      forall e | e in Entries(s.store) && e.name != name
        ensures SvcOf(cfg, e) !in ComboKeys(cfg, s.store[name], Combos(s.store[name]))
      {
        if SvcOf(cfg, e) in Services(cfg, EntriesOf(name, s.store[name])) {
          var own :| own in EntriesOf(name, s.store[name]) && SvcOf(cfg, own) == SvcOf(cfg, e);
          assert own in Entries(s.store);
          OwnedServiceHasOneHome(cfg, s, own, e);
        }
      }
    }
  }

  lemma OwnedDelTargetIsIsolated(cfg: Config, s: State, name: string, port: int, t: Target)
    requires ValidConfig(cfg) && Homes(cfg, s)
    ensures DelTargetIsolated(cfg, s, name, port, t)
  {
    if name in s.store && TargetsAt(s.store[name], port) == [t] {
      var gone := Entry(name, s.store[name].ipAddr, port, t);
      StoredEntry(s.store, name, port, t);
      forall e | e in Entries(s.store) && e != gone
        ensures SvcOf(cfg, e) != SvcOf(cfg, gone)
      {
        EntryIsStored(s.store, e);
        if SvcOf(cfg, e) == SvcOf(cfg, gone) {
          OwnedServiceHasOneHome(cfg, s, e, gone);
        }
      }
    }
  }

  /** With distinct addresses and 16-bit ports every deletion and every restart is isolated. */
  lemma OwnedIsIsolated(cfg: Config, s: State, step: Step)
    requires ValidConfig(cfg) && Homes(cfg, s)
    ensures Isolated(cfg, s, step)
  {
    match step
    case Delete(name) => OwnedDeleteIsIsolated(cfg, s, name);
    case DelTarget(name, port, t) => OwnedDelTargetIsIsolated(cfg, s, name, port, t);
    case Restart(_, _, done) =>
      HousedIsAccepted(cfg, s);
      AcceptedLosesNothing(cfg, s, done);
    case _ =>
  }

  /** An address handed out by the allocator is held by no stored load balancer. */
  lemma AllocatedIsFresh(cfg: Config, s: State, ip: Bytes)
    requires ValidConfig(cfg) && Homes(cfg, s) && AllocateOnLink(cfg, s.link) == Some(ip)
    ensures |ip| == 16 && cfg.parse(cfg.show(ip)) == ip
    ensures forall a :: a in s.link ==> a.ip != ip
    ensures forall n :: n in s.store ==> cfg.parse(s.store[n].ipAddr) != ip
  {
    var v := Allocated(LinkNumbers(s.link), Value(cfg.range.from), Value(cfg.range.to)).value;
    ValueOfFromValue(v, 16);
    forall a | a in s.link
      ensures a.ip != ip
    {
      assert To16(a.ip) == a.ip && Value(To16(a.ip)) in LinkNumbers(s.link);
    }
    forall n | n in s.store
      ensures cfg.parse(s.store[n].ipAddr) != ip
    {
      assert Housed(cfg, s, s.store[n]) && AliasOf(cfg, s.store[n].ipAddr) in s.link;
    }
  }

  lemma CreatedAddressIsFresh(cfg: Config, s: State, name: string, requested: string, f: Faults)
    requires ValidConfig(cfg) && Homes(cfg, s) && Admissible(cfg, s, Create(name, requested, f))
    requires CreateStep(cfg, s, name, requested, f).1.Some?
    ensures var ip := CreateStep(cfg, s, name, requested, f).1.value.ipAddr;
            && |cfg.parse(ip)| == 16 && InCidr(cfg.cidr, cfg.parse(ip))
            && forall n :: n in s.store ==> cfg.parse(s.store[n].ipAddr) != cfg.parse(ip)
  {
    if requested == "" {
      AllocatedIsFresh(cfg, s, AllocateOnLink(cfg, s.link).value);
    }
  }

  /** A new load balancer at a fresh, accepted, aliased address keeps the homes. */
  lemma AddHome(cfg: Config, s: State, name: string, ip: string, link: set<LinkAddr>)
    requires Homes(cfg, s) && s.link <= link && ValidLink(link) && AliasOf(cfg, ip) in link
    requires |cfg.parse(ip)| == 16 && InCidr(cfg.cidr, cfg.parse(ip))
    requires forall n :: n in s.store ==> cfg.parse(s.store[n].ipAddr) != cfg.parse(ip)
    ensures Homes(cfg, s.(link := link, store := s.store[name := LbInfo(name, ip, map[])]))
  {
    var s' := s.(link := link, store := s.store[name := LbInfo(name, ip, map[])]);
    forall n | n in s'.store
      ensures Housed(cfg, s', s'.store[n])
    {
      if n != name { assert Housed(cfg, s, s.store[n]); }
    }
  }

  lemma CreateKeepsHomes(cfg: Config, s: State, name: string, requested: string, f: Faults)
    requires ValidConfig(cfg) && Homes(cfg, s) && Admissible(cfg, s, Create(name, requested, f))
    ensures Homes(cfg, CreateStep(cfg, s, name, requested, f).0)
  {
    var (s', r) := CreateStep(cfg, s, name, requested, f);
    if r.Some? {
      CreatedAddressIsFresh(cfg, s, name, requested, f);
      AddHome(cfg, s, name, r.value.ipAddr, s'.link);
    }
  }

  /** Changing one load balancer's targets, within range, keeps the homes. */
  lemma PutKeepsHomes(cfg: Config, s: State, name: string, lb: LbInfo, kernel: Kernel)
    requires Homes(cfg, s) && name in s.store && lb.ipAddr == s.store[name].ipAddr
    requires Housed(cfg, s, lb)
    ensures Homes(cfg, s.(store := s.store[name := lb], kernel := kernel))
  {}

  lemma AddTargetKeepsHomes(cfg: Config, s: State, name: string, port: int, t: Target, f: Faults)
    requires Homes(cfg, s) && PortInRange(port) && DeclaredProtocol(t.protocol)
    ensures Homes(cfg, AddTargetStep(cfg, s, name, port, t, f).0)
  {
    var (s', reply) := AddTargetStep(cfg, s, name, port, t, f);
    if reply == Code(ERR_SUCCESS) {
      assert Housed(cfg, s, s.store[name]);
      PutKeepsHomes(cfg, s, name, s'.store[name], s'.kernel);
    }
  }

  lemma DelTargetKeepsHomes(cfg: Config, s: State, name: string, port: int, t: Target)
    requires Agreed(cfg, s) && Homes(cfg, s)
    ensures Homes(cfg, DelTargetStep(cfg, s, name, port, t).0)
  {
    var (s', reply) := DelTargetStep(cfg, s, name, port, t);
    if reply == Code(ERR_SUCCESS) {
      WithoutMembers(s.store[name].targets[port], t);
      assert Housed(cfg, s, s.store[name]);
      PutKeepsHomes(cfg, s, name, DropTarget(s.store[name], port, t), s'.kernel);
    }
  }

  lemma DeleteKeepsHomes(cfg: Config, s: State, name: string)
    requires Homes(cfg, s)
    ensures Homes(cfg, DeleteStep(cfg, s, name).0)
  {
    var s' := DeleteStep(cfg, s, name).0;
    forall n | n in s'.store
      ensures Housed(cfg, s', s'.store[n])
    {
      assert Housed(cfg, s, s.store[n]);
    }
  }

  lemma HousedIsAccepted(cfg: Config, s: State)
    requires Homes(cfg, s)
    ensures Accepted(cfg, s.store)
  {
    forall n | n in s.store
      ensures InCidr(cfg.cidr, cfg.parse(s.store[n].ipAddr))
    {
      assert Housed(cfg, s, s.store[n]);
    }
  }

  lemma RestoredKeepsHomes(cfg: Config, s: State, link: set<LinkAddr>, kernel: Kernel)
    requires Homes(cfg, s) && ValidLink(link)
    ensures Homes(cfg, Restored(cfg, State(s.store, link, kernel)))
  {
    var s' := Restored(cfg, State(s.store, link, kernel));
    forall n | n in s'.store
      ensures Housed(cfg, s', s'.store[n])
    {
      assert Housed(cfg, s, s.store[n]);
    }
    forall a | a in s'.link
      ensures |a.ip| == 16
    {
      if a in Aliases(cfg, s.store) {
        var n :| n in s.store && AliasOf(cfg, s.store[n].ipAddr) == a;
        assert Housed(cfg, s, s.store[n]);
      }
    }
  }

  lemma RestartKeepsHomes(cfg: Config, s: State, link: set<LinkAddr>, wiped: bool, done: set<string>)
    requires ValidRange(cfg.range) && Homes(cfg, s) && ValidLink(link)
    ensures Homes(cfg, Next(cfg, s, Restart(link, wiped, done)))
  {
    HousedIsAccepted(cfg, s);
    AcceptedLosesNothing(cfg, State(s.store, link, TableAtRestart(s, wiped)), done);
    RestoredKeepsHomes(cfg, s, link, TableAtRestart(s, wiped));
  }

  lemma StepKeepsOwned(cfg: Config, s: State, step: Step)
    requires ValidConfig(cfg) && Owned(cfg, s) && Admissible(cfg, s, step)
    ensures Owned(cfg, Next(cfg, s, step))
  {
    OwnedIsIsolated(cfg, s, step);
    StepAgreedIff(cfg, s, step);
    match step
    case Create(name, requested, f) => CreateKeepsHomes(cfg, s, name, requested, f);
    case Delete(name) => DeleteKeepsHomes(cfg, s, name);
    case AddTarget(name, port, t, f) => AddTargetKeepsHomes(cfg, s, name, port, t, f);
    case DelTarget(name, port, t) => DelTargetKeepsHomes(cfg, s, name, port, t);
    case Restart(link, wiped, done) => RestartKeepsHomes(cfg, s, link, wiped, done);
  }

  /** Every admissible run keeps agreement, pairwise distinct aliased addresses, and the store's shape. */
  lemma {:induction false} RunKeepsOwned(cfg: Config, s: State, steps: seq<Step>)
    requires ValidConfig(cfg) && Owned(cfg, s) && AdmissibleRun(cfg, s, steps)
    ensures Owned(cfg, Run(cfg, s, steps))
    decreases |steps|
  {
    if steps != [] {
      StepKeepsOwned(cfg, s, steps[0]);
      RunKeepsOwned(cfg, Next(cfg, s, steps[0]), steps[1..]);
    }
  }

  /** From an empty system: after any admissible run the kernel's destinations are exactly the image of the
      stored targets under a one-to-one map, and Restore would be accepted. */
  lemma WholeRunAgreement(cfg: Config, s: State, steps: seq<Step>)
    requires ValidConfig(cfg) && Empty(s) && AdmissibleRun(cfg, s, steps)
    ensures var r := Run(cfg, s, steps);
            && Owned(cfg, r) && Accepted(cfg, r.store)
            && Pairs(r.kernel) == Image(cfg, Entries(r.store)) && Injective(cfg, Entries(r.store))
  {
    EmptyAgrees(cfg, s);
    RunKeepsOwned(cfg, s, steps);
    HousedIsAccepted(cfg, Run(cfg, s, steps));
  }

  // ---------- clean deletion, inverse steps, allocation ----------

  /** No store entry, alias or destination of the load balancer is left, and everything of the others is. */
  ghost predicate CleanlyDeleted(cfg: Config, s: State, s': State, name: string)
    requires name in s.store
  {
    var lb := s.store[name];
    && s'.store == s.store - {name}
    && AliasOf(cfg, lb.ipAddr) !in s'.link
    && (forall x :: x in Pairs(s'.kernel) ==> x.svc.address != AddressKey(cfg, lb))
    && (forall n :: n in s'.store ==> AliasOf(cfg, s.store[n].ipAddr) in s'.link)
    && (forall k :: k in s.kernel && k.address != AddressKey(cfg, lb) ==> k in s'.kernel && s'.kernel[k] == s.kernel[k])
  }

  /** Delete of a stored load balancer answers 0, leaves no destination and no alias of its address, and
      leaves every other load balancer's entry, alias and services as they were. */
  lemma DeleteIsClean(cfg: Config, s: State, name: string)
    requires ValidConfig(cfg) && Owned(cfg, s) && name in s.store
    ensures var (s', reply) := DeleteStep(cfg, s, name);
            reply == Code(ERR_SUCCESS) && CleanlyDeleted(cfg, s, s', name)
  {
    assert Housed(cfg, s, s.store[name]);
    OwnedDeletesOnce(cfg, s, name);
    NoPairLeft(cfg, s, name);
    OthersKeepAliases(cfg, s, name);
    assert forall c :: ComboKey(cfg, s.store[name], c).address == AddressKey(cfg, s.store[name]);
  }

  lemma NoPairLeft(cfg: Config, s: State, name: string)
    requires ValidConfig(cfg) && Owned(cfg, s) && name in s.store
    ensures forall x :: x in Pairs(DeleteStep(cfg, s, name).0.kernel)
                        ==> x.svc.address != AddressKey(cfg, s.store[name])
  {
    var s' := DeleteStep(cfg, s, name).0;
    OwnedDeleteIsIsolated(cfg, s, name);
    DeleteAgreedIff(cfg, s, name);
    forall x | x in Pairs(s'.kernel)
      ensures x.svc.address != AddressKey(cfg, s.store[name])
    {
      assert x in Image(cfg, Entries(s'.store));
      var e :| e in Entries(s'.store) && PairOf(cfg, e) == x;
      EntryIsStored(s'.store, e);
      OtherAddress(cfg, s, name, e.name);
    }
  }

  lemma OtherAddress(cfg: Config, s: State, m: string, n: string)
    requires ValidConfig(cfg) && Homes(cfg, s) && m in s.store && n in s.store && m != n
    ensures AddressKey(cfg, s.store[m]) != AddressKey(cfg, s.store[n])
    ensures AliasOf(cfg, s.store[m].ipAddr) != AliasOf(cfg, s.store[n].ipAddr)
  {
    if AddressKey(cfg, s.store[m]) == AddressKey(cfg, s.store[n]) {
      RawInjective(cfg.parse(s.store[m].ipAddr), cfg.parse(s.store[n].ipAddr));
    }
  }

  lemma OthersKeepAliases(cfg: Config, s: State, name: string)
    requires ValidConfig(cfg) && Homes(cfg, s) && name in s.store
    ensures forall n :: n in s.store && n != name ==> AliasOf(cfg, s.store[n].ipAddr) in DeleteStep(cfg, s, name).0.link
  {
    forall n | n in s.store && n != name
      ensures AliasOf(cfg, s.store[n].ipAddr) in DeleteStep(cfg, s, name).0.link
    {
      assert Housed(cfg, s, s.store[n]);
      OtherAddress(cfg, s, name, n);
    }
  }

  lemma OwnedDeletesOnce(cfg: Config, s: State, name: string)
    requires ValidConfig(cfg) && Owned(cfg, s) && name in s.store
    ensures EachServiceOnce(cfg, s.kernel, s.store[name], Combos(s.store[name]))
  {
    var lb := s.store[name];
    ComboKeysAreServices(cfg, name, lb);
    forall k | k in Services(cfg, EntriesOf(name, lb))
      ensures k in s.kernel
    {
      var e :| e in EntriesOf(name, lb) && SvcOf(cfg, e) == k;
      StoredTargetIsMapped(cfg, s, name, e.port, e.target);
    }
    forall c, d | c in Combos(lb) && d in Combos(lb) && ComboKey(cfg, lb, c) == ComboKey(cfg, lb, d)
      ensures c == d
    {
      var p, t :| p in lb.targets && t in lb.targets[p] && c == (p, t.protocol);
      var q, u :| q in lb.targets && u in lb.targets[q] && d == (q, u.protocol);
      StoredEntry(s.store, name, p, t);
      StoredEntry(s.store, name, q, u);
      OwnedServiceHasOneHome(cfg, s, Entry(name, lb.ipAddr, p, t), Entry(name, lb.ipAddr, q, u));
    }
  }

  lemma {:induction false} WithoutUndoesAppend(list: seq<Target>, t: Target)
    requires t !in list
    ensures Without(list + [t], t) == list
  {
    if list != [] {
      assert (list + [t])[0] == list[0] && (list + [t])[1..] == list[1..] + [t];
      WithoutUndoesAppend(list[1..], t);
    }
  }

  lemma DropUndoesAdd(lb: LbInfo, port: int, t: Target)
    requires WellShaped(lb) && t !in TargetsAt(lb, port)
    ensures DropTarget(lb.(targets := lb.targets[port := TargetsAt(lb, port) + [t]]), port, t) == lb
  {
    WithoutUndoesAppend(TargetsAt(lb, port), t);
    var lb' := lb.(targets := lb.targets[port := TargetsAt(lb, port) + [t]]);
    assert DropTarget(lb', port, t).targets == lb.targets;
  }

  lemma AddedStore(cfg: Config, s: State, name: string, port: int, t: Target, f: Faults)
    requires AddTargetStep(cfg, s, name, port, t, f).1 == Code(ERR_SUCCESS)
    ensures var s1 := AddTargetStep(cfg, s, name, port, t, f).0;
            && name in s.store && name in s1.store && s1.link == s.link && t !in TargetsAt(s.store[name], port)
            && t in TargetsAt(s1.store[name], port)
            && s1.store == s.store[name := s1.store[name]]
            && (WellShaped(s.store[name]) ==> DropTarget(s1.store[name], port, t) == s.store[name])
  {
    if WellShaped(s.store[name]) { DropUndoesAdd(s.store[name], port, t); }
  }

  lemma DroppedStore(cfg: Config, s: State, name: string, port: int, t: Target)
    requires DelTargetStep(cfg, s, name, port, t).1 == Code(ERR_SUCCESS)
    ensures var s1 := DelTargetStep(cfg, s, name, port, t).0;
            && name in s.store && t in TargetsAt(s.store[name], port) && s1.link == s.link
            && s1.store == s.store[name := DropTarget(s.store[name], port, t)]
  {}

  lemma DelUndoesStore(cfg: Config, s: State, name: string, port: int, t: Target, f: Faults)
    requires AddTargetStep(cfg, s, name, port, t, f).1 == Code(ERR_SUCCESS)
    requires WellShaped(s.store[name]) && Agreed(cfg, AddTargetStep(cfg, s, name, port, t, f).0)
    ensures var (s', reply) := DelTargetStep(cfg, AddTargetStep(cfg, s, name, port, t, f).0, name, port, t);
            reply == Code(ERR_SUCCESS) && s'.store == s.store && s'.link == s.link
  {
    var s1 := AddTargetStep(cfg, s, name, port, t, f).0;
    AddedStore(cfg, s, name, port, t, f);
    StoredTargetIsMapped(cfg, s1, name, port, t);
    DroppedStore(cfg, s1, name, port, t);
    assert s.store[name := s1.store[name]][name := s.store[name]] == s.store;
  }

  lemma SameStoreSamePairs(cfg: Config, s: State, s': State)
    requires Agreed(cfg, s) && Agreed(cfg, s') && s.store == s'.store
    ensures Pairs(s.kernel) == Pairs(s'.kernel)
  {}

  /** A successful AddTarget followed by DelTarget of the same target restores the store and the kernel's
      destinations exactly. */
  lemma AddThenDelRestores(cfg: Config, s: State, name: string, port: int, t: Target, f: Faults)
    requires ValidConfig(cfg) && Owned(cfg, s) && PortInRange(port) && DeclaredProtocol(t.protocol)
    requires AddTargetStep(cfg, s, name, port, t, f).1 == Code(ERR_SUCCESS)
    ensures var (s', reply) := DelTargetStep(cfg, AddTargetStep(cfg, s, name, port, t, f).0, name, port, t);
            && reply == Code(ERR_SUCCESS) && s'.store == s.store && s'.link == s.link
            && Pairs(s'.kernel) == Pairs(s.kernel)
  {
    var s1 := Next(cfg, s, AddTarget(name, port, t, f));
    var s2 := Next(cfg, s1, DelTarget(name, port, t));
    StepKeepsOwned(cfg, s, AddTarget(name, port, t, f));
    StepKeepsOwned(cfg, s1, DelTarget(name, port, t));
    DelUndoesStore(cfg, s, name, port, t, f);
    SameStoreSamePairs(cfg, s2, s);
  }

  /** The alias step refuses the allocated address: an address of the range only when it is IPv4-mapped in an IPv6
      network; an address from beyond the wrap when the CIDR test says so. */
  ghost predicate AllocationRefused(cfg: Config, link: set<LinkAddr>)
    requires ValidRange(cfg.range)
  {
    var free := FirstFree(LinkNumbers(link), Value(cfg.range.from), Value(cfg.range.to));
    var ip := AllocateOnLink(cfg, link);
    if free.Some? then |NetworkNumber(cfg.cidr)| != 4 && To4(FromValue(free.value, 16)) != []
    else ip.Some? && !InCidr(cfg.cidr, ip.value)
  }

  lemma AllocationRefusedIff(cfg: Config, link: set<LinkAddr>)
    requires ValidConfig(cfg)
    ensures AllocationRefused(cfg, link)
            <==> AllocateOnLink(cfg, link).Some? && !InCidr(cfg.cidr, AllocateOnLink(cfg, link).value)
  {
    var free := FirstFree(LinkNumbers(link), Value(cfg.range.from), Value(cfg.range.to));
    if free.Some? {
      ValueOfFromValue(free.value, 16);
      AllocatedInCidr(cfg.cidr, cfg.range, LinkNumbers(link), FromValue(free.value, 16));
    }
  }

  /** Create without a requested address fails only because the name is taken, the link refuses the alias, no address
      is found, or the alias step refuses the one that was found; for every network and every range. */
  lemma CreateByAllocation(cfg: Config, s: State, name: string, f: Faults)
    requires ValidConfig(cfg) && Owned(cfg, s)
    ensures CreateStep(cfg, s, name, "", f).1.None?
            <==> (name in s.store || f.alias || AllocateOnLink(cfg, s.link).None? || AllocationRefused(cfg, s.link))
  {
    var r := AllocateOnLink(cfg, s.link);
    AllocationRefusedIff(cfg, s.link);
    if r.Some? {
      AllocatedIsFresh(cfg, s, r.value);
      assert AliasOf(cfg, cfg.show(r.value)) !in s.link;
    }
  }

  /** In an IPv4 network the alias step never refuses an allocated address, and none is found exactly when the range
      is full. */
  lemma CreateByAllocationIPv4(cfg: Config, s: State, name: string, f: Faults)
    requires ValidConfig(cfg) && Owned(cfg, s) && |NetworkNumber(cfg.cidr)| == 4
    ensures CreateStep(cfg, s, name, "", f).1.None?
            <==> (name in s.store || f.alias
                  || FirstFree(LinkNumbers(s.link), Value(cfg.range.from), Value(cfg.range.to)).None?)
  {
    Ipv4RangeEndsEarly(cfg);
    CreateByAllocation(cfg, s, name, f);
  }

  /** In an IPv6 network whose range does not end in all ones: the first free address is refused, and Create with it,
      exactly when it is IPv4-mapped, although the range has free addresses. */
  lemma CreateByAllocationIPv6(cfg: Config, s: State, name: string)
    requires ValidConfig(cfg) && Owned(cfg, s) && |NetworkNumber(cfg.cidr)| == 16 && Value(cfg.range.to) < MAX_IP
    requires name !in s.store
    ensures var free := FirstFree(LinkNumbers(s.link), Value(cfg.range.from), Value(cfg.range.to));
            CreateStep(cfg, s, name, "", NO_FAULTS).1.None?
            <==> (free.None? || To4(FromValue(free.value, 16)) != [])
  {
    CreateByAllocation(cfg, s, name, NO_FAULTS);
  }

  lemma Ipv4RangeEndsEarly(cfg: Config)
    requires ValidConfig(cfg) && |NetworkNumber(cfg.cidr)| == 4
    ensures Value(cfg.range.to) < MAX_IP
  {
    var top, zeros := seq(16, _ => 255), Zeros(16);
    CarryRunsOut(top, zeros);
    assert To4(cfg.range.to) != [];
    assert cfg.range.to[0] == cfg.range.to[..12][0] == 0;
    FirstDifferenceDecides(cfg.range.to, top, 0);
  }

  // ---------- the assumptions can be met ----------

  /** A printer and a parser that are inverse: one character per byte. */
  function ShowBytes(ip: Bytes): string {
    seq(|ip|, i requires 0 <= i < |ip| => ip[i] as char)
  }

  function ParseBytes(s: string): Bytes {
    if |s| == 16 && forall i :: 0 <= i < |s| ==> s[i] as int < 256
    then seq(16, i requires 0 <= i < 16 => s[i] as int)
    else []
  }

  /** The network of lbmanager.yaml: 192.168.87.0/24 with the dynamic range 200 to 225. */
  ghost function SampleConfig(): Config {
    Config(Cidr([192, 168, 87, 0], 24),
           Range(V4_IN_V6_PREFIX + [192, 168, 87, 200], V4_IN_V6_PREFIX + [192, 168, 87, 225]),
           ParseBytes, ShowBytes)
  }

  lemma SampleConfigIsValid()
    ensures ValidConfig(SampleConfig()) && |NetworkNumber(SampleConfig().cidr)| == 4
  {
    var cfg := SampleConfig();
    var from, to := cfg.range.from, cfg.range.to;
    assert To4(from) == [192, 168, 87, 200] && To4(to) == [192, 168, 87, 225];
    assert from[..15] == to[..15];
    FirstDifferenceDecides(from, to, 15);
    assert InCidr(cfg.cidr, from) && InCidr(cfg.cidr, to);
    forall ip: Bytes | |ip| == 16
      ensures cfg.parse(cfg.show(ip)) == ip
    {
      assert forall i :: 0 <= i < 16 ==> ShowBytes(ip)[i] == ip[i] as char;
    }
  }
}
