# Verified model of the load balancer stack

A Dafny model of the part of proxmox-cloud-provider that gives a Kubernetes `LoadBalancer` service an address
and forwards it with IPVS: the load balancer server with its store, link and kernel table, the reconciler that
drives it, the address allocator, and the IPVS netlink codec with its reply collector.

| file | content |
|---|---|
| NetAddr.dfy, Cidr.dfy | addresses as byte strings and big-endian numbers; prefix blocks |
| IpTrie.dfy, Ipam.dfy | the mutable byte trie, byte arithmetic, the first-free scan |
| LbState.dfy | the server's state and each handler as a step on values: the reference |
| LbProofs.dfy, LbRuns.dfy | what every step keeps, whole runs with restarts, clean deletion, inverse steps |
| LbOutcomes.dfy | what each handler answers and does, in every state: literal codes, ports, protocol numbers and address bytes |
| LbEmptyServices.dfy | services that stay in the kernel without destinations: where they come from, what removes them |
| LbServer.dfy | the server, link and kernel table as classes updated in place, proved to take those steps |
| Reconcile.dfy, Provider.dfy | what `handleMappings` does to the stored targets; the provider's entry points over the server |
| IpvsCodec.dfy, IpvsCodecProofs.dfy | services and destinations as attribute lists: decoding loops, round trips, order |
| IpvsExecute.dfy | the reply collector and serial runs on one handle |
| LbWire.dfy | the server's services and destinations through the codec; reachable states that break agreement |

`dafny verify dfyconfig.toml` checks everything.

## How the model is set up

- The server's steps are functions on a `State` (store, link addresses, kernel table). The class methods change
  fields in place, and their `ensures` equate the new state with the step. The map loops of `Delete`, `Restore`
  and `handleMappings` take any remaining key, so the results hold for every iteration order. The order in which
  the store's iterator yields the load balancers is a parameter of `Restore`.
- The steps are also described without their own helpers, in the terms of a caller and of the kernel: LbOutcomes.dfy
  for the handlers and allocation, `InIPv4CidrIff` and its neighbours for the CIDR test, `DesiredForIff` for the
  reconciler's keys, `AnswerOfParts` for the collector, `ServiceOnTheWire` for the attributes.
- `net.ParseIP` and `IP.String` are functions in the configuration. Agreement is proved for every such parser, also
  one that reads two strings as the same address. Only allocation needs that printing and parsing are inverse.
- The kernel refuses duplicates and absentees, and may also refuse any alias, service or destination that a
  handler creates (`Faults`). The runs cover all such refusals.
- A restart keeps the kernel table (the process ends) or wipes it (the machine reboots), leaves the link in any
  state and runs `Restore`, which stops at the first load balancer whose address the CIDR does not accept. In the
  runs the set `done` of a restart stands for those that the iterator yields before it.
- Handlers run one at a time; store writes succeed. Deletions fail only on absent items.
- Every int32 to uint16 cut of a port is written out as `% 0x1_0000`.

## What the proofs show about the code

Some promises hold only under a condition. For each there is a lemma that says exactly when.

- Store and kernel agree throughout a run if and only if each deletion in it removes no IPVS service that another
  stored target uses, and each restart after a wipe reaches all stored targets (`RunAgreedIff`). It can fail when
  two load balancers were created with the same explicit address, which the comment at
  internal/loadbalancer/impl.go:222-223 allows (`SharedAddressBreaksAgreement`; the target that lost its destination
  then cannot be deleted, code 16), when two source ports are equal
  modulo 65536 (`CutPortBreaksAgreement`), and when the configured network was changed between two starts
  (`ChangedNetworkLosesTargets`). While the network stays the same no restart stops early (`RestoreNeverFails`);
  with distinct addresses and 16-bit ports as well, agreement never fails (`WholeRunAgreement`).
- A service can stay in the kernel without destinations, so agreement is stated on destinations. AddTarget leaves
  one exactly when the kernel refuses the destination of a service that was missing before
  (`AddTargetEmptyServices`), DelTarget exactly when the port goes on with the other protocol only
  (`DelTargetEmptyServices`). Delete removes none of them: a service at the deleted address survives if and only if
  it was empty (`SurvivesDeleteIff`). Only a wipe does (`RestartEmptyServices`).
- `handleMappings` removes leftovers inside the port loop. With two or more supported ports it reaches the desired
  set exactly when no key that only a later port asks for was already mapped (`ConvergesIff`), and repeated runs
  alternate between two sets for ever (`RunsAlternate`, `SettlesIff`, `TwoPortsFlap`).
- When the dynamic range ends in the all-ones address and is full, the increment wraps and `Allocate` answers from
  zero on (`AllocateStaysInRangeIff`). An allocated address is in the CIDR unless it is IPv4-mapped in an IPv6
  network (`RangeInCidr`, `MappedHole`). There the alias step refuses it, and Create without an address fails although
  the range has free addresses (`CreateByAllocation`, `AllocationRefusedIff`).
- A destination's family is inferred from its bytes. The round trip is right exactly for IPv4 and for IPv6 with a
  non-zero byte after the first four (`DestinationRoundTrip`). A weight is written as four bytes and read as two, so
  on a big-endian host a weight of 1 is read as 0 (`DestinationKeySurvivesIff`).
- The replies of a handle are kept apart in serial runs of any length, also after the 32-bit request number has
  wrapped: each request drops what it finds of earlier ones and leaves at most a rest of its own reply, and the next
  number differs from its own (`RunIsolation`, `StaleDropped`).

## Model

| member | source | states |
|---|---|---|
| NetAddr.SameIPIffSameTo16 | internal/ipam/simple.go:115-122 | address equality, as isUsed tests it, is equality of the 16-byte forms |
| NetAddr.FirstDifferenceDecides | internal/ipam/simple.go:105-111 | the first differing byte decides the order of the numbers |
| NetAddr.BetweenKeepsPrefix | internal/ipam/simple.go:83-89 | an address between two addresses with a common prefix has that prefix |
| CidrBlocks.PrefixIsShift | internal/ipam/simple.go:62-64 | for every prefix length the bytewise mask test is equality of the numbers without their host bits |
| CidrBlocks.ShiftIsDivision | internal/ipam/simple.go:62-64 | a shift by h bits is the quotient by 2^h |
| CidrBlocks.InIPv4CidrIff | internal/ipam/simple.go:62-64 | in an IPv4 network exactly the mapped addresses that agree with it above its host bits |
| CidrBlocks.InMappedCidrIff | internal/ipam/simple.go:62-64 | the same network in 16-byte form; mask bits before the 96th do not count |
| CidrBlocks.InIPv6CidrIff | internal/ipam/simple.go:62-64 | in an IPv6 network exactly the addresses that agree with it above its host bits and are not mapped |
| CidrBlocks.BlockIsInterval | internal/ipam/simple.go:36-42 | a prefix block is an interval: what lies between two members is a member |
| CidrBlocks.RangeInCidr | internal/ipam/simple.go:36-42 | an address of a checked range is in the CIDR if and only if the network is IPv4 or the address is not IPv4-mapped |
| CidrBlocks.MappedHole | internal/ipam/simple.go:62-64 | a concrete checked range with an address outside its CIDR |
| IpTrie.Trie.Insert | internal/ipam/simple.go:171-182 | adds exactly one member and keeps the heap of nodes a tree, with fresh nodes only |
| IpTrie.Trie.AddChild | internal/ipam/simple.go:174-178 | one missing edge: a fresh unmarked node under the longer path, every other edge as it was |
| IpTrie.Trie.Contains | internal/ipam/simple.go:185-195 | true exactly for members, in 16-byte form |
| IpTrie.Trie.constructor | internal/ipam/simple.go:148-154 | a new trie has no member |
| Ipam.TrieMatchesScan | internal/ipam/simple.go:115-122 | what a trie built from a list contains is exactly what the linear scan finds in it |
| Ipam.TakenIff | internal/ipam/simple.go:115-122 | a number counts as taken exactly when the address it stands for is in the list |
| Ipam.IsUsed | internal/ipam/simple.go:115-122 | true exactly when some list entry is the same address |
| Ipam.BuildTrie | internal/ipam/simple.go:79-82 | the trie's members are the 16-byte forms of the list, whatever its order |
| Ipam.BytesCompare | internal/ipam/simple.go:101-113 | the sign of the difference of the 128-bit numbers; zero exactly for the same address |
| Ipam.GetNextIP | internal/ipam/simple.go:124-136 | plus one modulo 256^len, for every length |
| Ipam.FirstFree | internal/ipam/simple.go:83-90 | the reference: the least free number of an interval, none exactly when all are taken |
| Ipam.ScanStep | internal/ipam/simple.go:84-89 | one candidate of the scan: free means it is the answer, taken means everything up to it is, also across the wrap |
| Ipam.Scan | internal/ipam/simple.go:83-90 | the loop over the built trie ends, with the reference's answer |
| Ipam.Allocate | internal/ipam/simple.go:74-91 | returns the numerically least free address of the range and errors exactly when all are taken; wraps past the all-ones address |
| Ipam.AllocatedIsLeast | internal/ipam/simple.go:83-90 | the answer is the least number of the range not taken; none when all are; past a full range ending in all ones the least of all |
| Ipam.AllocateStaysInRangeIff | internal/ipam/simple.go:84-89 | answers lie in the range for all link addresses if and only if the range does not end in all ones or starts at zero |
| Ipam.AllocatedInCidr | internal/ipam/simple.go:36-42 | an address allocated without the wrap lies in the range, and passes the CIDR test except when it is mapped in an IPv6 network |
| Ipam.NewRange | internal/ipam/simple.go:36-42 | a range is accepted exactly when its ends are in strict numeric order and both in the CIDR |
| Ipam.RangeContains | internal/ipam/simple.go:51-60 | numeric interval membership, never for the unspecified addresses; with the ends out of order only the ends themselves |
| LbProofs.SvcKeyDetermines | internal/loadbalancer/impl.go:120-137 | an IPVS service key determines the address, the port modulo 65536 and whether the protocol is UDP |
| LbProofs.CreateKeepsAgreed | internal/loadbalancer/impl.go:200-235 | Create keeps agreement, whatever address is requested |
| LbProofs.AddTargetKeepsAgreed | internal/loadbalancer/impl.go:317-390 | AddTarget keeps agreement, whatever the port, the parser and the kernel's refusals |
| LbProofs.DeleteAgreedIff | internal/loadbalancer/impl.go:274-314 | Delete keeps agreement if and only if no other load balancer's target uses a service it removes |
| LbProofs.DelTargetAgreedIff | internal/loadbalancer/impl.go:439-469 | DelTarget keeps agreement if and only if, when it empties the list, no other target uses the service |
| LbProofs.StoredTargetIsMapped | internal/loadbalancer/impl.go:439-445 | in an agreed state DelTarget of a stored target answers 0 |
| LbProofs.AddTargetOutcome | internal/loadbalancer/impl.go:317-390 | which code AddTarget answers; only a success changes the stored entries and the kernel's destinations, by exactly that entry |
| LbProofs.DelTargetOutcome | internal/loadbalancer/impl.go:392-470 | 0 exactly for a stored target, which is then gone from store and kernel; any other answer changes nothing |
| LbProofs.AddStores | internal/loadbalancer/impl.go:343-358 | a target whose pair the kernel lacks is stored and mapped, and nothing else |
| LbProofs.MergeOneMore | internal/loadbalancer/impl.go:156-163 | mapping entries one by one, duplicates refused, gives a table that does not depend on their order |
| LbProofs.RestoreMonotoneIdempotent | internal/loadbalancer/impl.go:140-167 | from any kernel table Restore ends with its destinations and the image of the store; a second Restore changes nothing |
| LbProofs.CrashRecovery | internal/loadbalancer/impl.go:140-167 | with all stored addresses accepted Restore succeeds after a wipe: the same destinations, no empty service, an alias for every load balancer |
| LbProofs.RestartAgreedIff | internal/loadbalancer/impl.go:140-167 | a restart keeps agreement if and only if the table was kept or every load balancer with targets was restored before the first refused address |
| LbRuns.RunAgreedIff | internal/loadbalancer/impl.go:140-470 | agreement holds throughout a run if and only if each of its deletions is isolated and each restart after a wipe restores every load balancer with targets |
| LbRuns.RestoreNeverFails | internal/loadbalancer/impl.go:140-167 | when all stored addresses are in the CIDR, Restore succeeds after every run that keeps the network, in any order |
| LbRuns.OwnedIsIsolated | internal/loadbalancer/impl.go:140-470 | with distinct addresses and 16-bit ports every deletion and every restart is isolated |
| LbRuns.AllocatedIsFresh | internal/loadbalancer/impl.go:208-214 | an allocated address is on no link entry and held by no stored load balancer |
| LbRuns.StepKeepsOwned | internal/loadbalancer/impl.go:200-470 | every admissible step and every restart keeps agreement, distinct aliased addresses and the store's shape |
| LbRuns.RunKeepsOwned | internal/loadbalancer/impl.go:200-470 | so does every admissible run |
| LbRuns.WholeRunAgreement | internal/loadbalancer/impl.go:200-470 | from an empty system the kernel's destinations are the one-to-one image of the stored targets, and Restore would be accepted |
| LbRuns.DeleteIsClean | internal/loadbalancer/impl.go:265-315 | Delete answers 0, leaves no destination and no alias of the address, and leaves all else untouched |
| LbRuns.AddThenDelRestores | internal/loadbalancer/impl.go:317-470 | AddTarget then DelTarget restores the store and the kernel's destinations exactly |
| LbRuns.CreateByAllocation | internal/loadbalancer/impl.go:203-227 | Create without an address fails exactly for a taken name, a refused alias, a full scan, or an allocated address outside the CIDR, for every network and range |
| LbRuns.AllocationRefusedIff | internal/loadbalancer/impl.go:208-227 | the allocated address is outside the CIDR exactly when it is the least free one, IPv4-mapped in an IPv6 network, or a wrapped one that the CIDR refuses |
| LbRuns.CreateByAllocationIPv4 | internal/loadbalancer/impl.go:203-227 | in an IPv4 network it fails exactly for a taken name, a full range or a refused alias |
| LbRuns.CreateByAllocationIPv6 | internal/loadbalancer/impl.go:203-227 | in an IPv6 network it fails for a new name exactly when the range is full or its least free address is IPv4-mapped |
| LbRuns.SampleConfigIsValid | lbmanager.yaml:16-25 | the shipped network and range meet what the theorems assume of a configuration |
| LbOutcomes.ServiceIff | internal/loadbalancer/impl.go:120-137 | the service handed to the kernel: family 2 or 10 with the address bytes, port modulo 65536, protocol 17 for UDP and 6 otherwise |
| LbOutcomes.BackendIff | internal/loadbalancer/impl.go:364-381 | the destination handed to the kernel: the target's address bytes with their family, its port modulo 65536 |
| LbOutcomes.AgreedForwards | internal/loadbalancer/impl.go:200-470 | agreement in the kernel's terms: it forwards exactly the stored targets, each by a pair of its own |
| LbOutcomes.UnknownName | internal/loadbalancer/impl.go:265-470 | an unknown name is code 1 for AddTarget, DelTarget and Delete and changes nothing |
| LbOutcomes.AddTargetAnswers | internal/loadbalancer/impl.go:317-390 | in every state and under every refusal: code 0, 8, 32 or an RPC error, the new store, and the one new destination |
| LbOutcomes.WithoutFirst | internal/loadbalancer/impl.go:446 | the list without the first occurrence of the target, order kept |
| LbOutcomes.DelTargetAnswers | internal/loadbalancer/impl.go:392-470 | in every state: 64 when not stored, 16 when the kernel lacks the destination, else 0 with the new store and table; only 0 changes anything |
| LbOutcomes.DeleteAnswers | internal/loadbalancer/impl.go:265-315 | in every state: code 0, 2, 4 or 6, and exactly what is gone after it |
| LbOutcomes.CreateAnswers | internal/loadbalancer/impl.go:200-263 | Create with a requested address in every state: when it fails, and the entry and alias it adds |
| LbOutcomes.AllocatesLeast | internal/loadbalancer/impl.go:208-214 | without one: the least address of the range that is not on the link |
| LbOutcomes.CreateTakesAllocated | internal/loadbalancer/impl.go:208-234 | it stores that address in printed form and aliases it with the CIDR's mask |
| LbOutcomes.RestoreAnswers | internal/loadbalancer/impl.go:140-167 | in every state and order: the load balancers before the first refused address are forwarded and aliased, nothing is lost |
| LbEmptyServices.EmptyIsUnused | internal/loadbalancer/impl.go:363-390 | in an agreed state the empty services are those that no stored target uses |
| LbEmptyServices.AddTargetEmptyServices | internal/loadbalancer/impl.go:363-390 | exactly when AddTarget leaves a new empty service, and when it fills one |
| LbEmptyServices.DelTargetEmptyServices | internal/loadbalancer/impl.go:439-460 | exactly when DelTarget leaves a new empty service; it changes no other |
| LbEmptyServices.DeleteKeepsEmptyServices | internal/loadbalancer/impl.go:265-315 | Delete neither adds nor removes an empty service |
| LbEmptyServices.SurvivesDeleteIff | internal/loadbalancer/impl.go:265-315 | a service at the deleted address outlives its load balancer if and only if it was empty |
| LbEmptyServices.RestartEmptyServices | internal/loadbalancer/impl.go:140-167 | an accepted restart leaves no empty service after a wipe, and otherwise exactly those it found |
| LbServer.Server.AddAddrAlias | internal/loadbalancer/impl.go:237-263 | accepts exactly the CIDR's addresses and adds the alias only when it is missing |
| LbServer.Server.Create | internal/loadbalancer/impl.go:200-235 | takes the Create step on store and link |
| LbServer.Server.MapTarget | internal/loadbalancer/impl.go:363-390 | creates the service when missing, then the destination; reports which was refused |
| LbServer.Server.AddTarget | internal/loadbalancer/impl.go:317-359 | takes the AddTarget step with its reply code |
| LbServer.Server.DelTarget | internal/loadbalancer/impl.go:392-470 | takes the DelTarget step with its reply code |
| LbServer.Server.FindTarget | internal/loadbalancer/impl.go:407-416 | the first index of an equal target, or -1 exactly when there is none |
| LbServer.Server.DeletePort | internal/loadbalancer/impl.go:276-289 | removes the services of one port in any order and tells whether each was there once |
| LbServer.Server.Delete | internal/loadbalancer/impl.go:265-315 | takes the Delete step with its reply code, in any order of ports and protocols |
| LbServer.Server.RestorePort | internal/loadbalancer/impl.go:158-162 | maps one port list; a refused duplicate changes nothing |
| LbServer.Server.Restore | internal/loadbalancer/impl.go:140-167 | takes the restore step for the iterator's order; succeeds exactly when all stored addresses are accepted, and then reaches the merged state; stopping early loses nothing |
| LbWire.ServiceKeySurvives | internal/loadbalancer/impl.go:120-137 | the service the server means is the service that decodes from its encoding |
| LbWire.DestinationKeySurvivesIff | internal/loadbalancer/impl.go:375-381 | a server destination comes back exactly when its family shows in its bytes; the weight only on little-endian hosts |
| LbWire.ServiceOnTheWire | internal/ipvs/netlink_linux.go:74-101 | the attributes sent for a server's service, byte by byte, in either byte order |
| LbWire.DestinationOnTheWire | internal/ipvs/netlink_linux.go:103-118 | the attributes sent for a destination: masquerading, weight one, no thresholds |
| LbWire.CutPortBreaksAgreement | internal/loadbalancer/impl.go:132 | ports 80 and 65616 share a service, and deleting one target loses the other |
| LbWire.SharedAddressBreaksAgreement | internal/loadbalancer/impl.go:222-223 | from an empty system: two load balancers on one requested address, one target each; deleting the first breaks agreement, and DelTarget of the other's target answers 16 from then on |
| LbWire.ChangedNetworkLosesTargets | internal/loadbalancer/impl.go:153-155 | from an empty system: after a start with a network that no longer holds a stored address, its targets are not mapped |
| Reconcile.ReconcileExact | internal/proxmox/loadbalancer.go:120-205 | the exact set stored after the loops, for all current keys, ports and nodes, duplicates included |
| Reconcile.DistinctResult | internal/proxmox/loadbalancer.go:132-202 | with distinct desired keys: the first port's keys and the later keys that were not current |
| Reconcile.ConvergesIff | internal/proxmox/loadbalancer.go:187-201 | the desired set is reached if and only if no later-only key was current; without a supported port, if nothing was |
| Reconcile.ConvergesSimply | internal/proxmox/loadbalancer.go:132-202 | one supported port, or no current target: the desired set is reached |
| Reconcile.FinalFromNothing | internal/proxmox/loadbalancer.go:132-202 | a load balancer without targets gets the desired set, whatever the ports, nodes and duplicates |
| Reconcile.OnePortSettles | internal/proxmox/loadbalancer.go:177-185 | with one supported port one run settles |
| Reconcile.RunsAlternate | internal/proxmox/loadbalancer.go:187-201 | repeated runs alternate between two sets |
| Reconcile.SettlesIff | internal/proxmox/loadbalancer.go:187-201 | they settle if and only if no later port has a key of its own |
| Reconcile.TwoPortsFlap | internal/proxmox/loadbalancer.go:187-201 | two ports and one node: repeated runs lose and regain the second port's target |
| Reconcile.DesiredDistinct | internal/proxmox/loadbalancer.go:132-161 | distinct (port, protocol) pairs and node addresses give distinct desired keys |
| Reconcile.DesiredForIff | internal/proxmox/loadbalancer.go:141-163 | a TCP or UDP port asks for exactly its node port, under its own port, on each node's first InternalIP |
| Reconcile.DesiredIff | internal/proxmox/loadbalancer.go:132-163 | the desired keys are what some port asks for; other protocols ask for nothing |
| Provider.DesiredTargetsIff | internal/proxmox/loadbalancer.go:132-186 | with the desired keys stored, the stored targets are exactly those asked for |
| Provider.ReconciledTargetsIff | internal/proxmox/loadbalancer.go:120-205 | after a reconciliation: the first supported port's targets, and those of later ports that were not stored before |
| Provider.TargetsForwarded | internal/loadbalancer/impl.go:317-390 | in an agreed state every stored target has its forwarding pair in the kernel |
| Provider.CallsStore | internal/proxmox/loadbalancer.go:162-201 | on an owned server the calls store exactly the keys they add and not those they delete; refusals are duplicates and absentees only |
| Provider.NewKeyIsUnmapped | internal/loadbalancer/impl.go:382-388 | the kernel never refuses a plain key that is not stored |
| Provider.NameIsUnique | internal/proxmox/loadbalancer.go:57-62 | load balancer names of different clusters, namespaces or services differ |
| Provider.NameReadsBack | internal/proxmox/loadbalancer.go:57-62 | a name is read back as cluster, namespace and service, in that order and only so |
| Provider.LoadBalancer.CurrentMappings | internal/proxmox/loadbalancer.go:122-129 | the keys of all stored targets |
| Provider.LoadBalancer.FirstInternalIP | internal/proxmox/loadbalancer.go:146-152 | the address of the first InternalIP entry |
| Provider.LoadBalancer.MapNodes | internal/proxmox/loadbalancer.go:145-186 | the node loop as calls to the server and changes of the two sets |
| Provider.LoadBalancer.RemoveLeft | internal/proxmox/loadbalancer.go:188-201 | the removal loop in any order |
| Provider.LoadBalancer.HandleMappings | internal/proxmox/loadbalancer.go:120-205 | the stored targets end as the exact formula says, nothing else changes, agreement is kept; a settled single port is left alone |
| Provider.LoadBalancer.FindOrCreate | internal/proxmox/loadbalancer.go:77-88 | takes the Create step only for a missing name; a new load balancer has no target |
| Provider.LoadBalancer.EnsureLoadBalancer | internal/proxmox/loadbalancer.go:68-99 | fails exactly when Create does; otherwise the targets are those of the formula; a new load balancer stores exactly what the ports and nodes ask for, all of it forwarded by the kernel; all others are untouched and no alias is lost |
| Provider.LoadBalancer.EnsureLoadBalancerDeleted | internal/proxmox/loadbalancer.go:215-227 | takes the Delete step and succeeds exactly for codes 0 and 1; on an owned server always, and then the load balancer, its alias and all its pairs are gone, everything else is untouched |
| IpvsCodec.AssembleStats | internal/ipvs/netlink_linux.go:274-308 | the decoding loop gives, per field, the last attribute of its kind |
| IpvsCodec.CollectService | internal/ipvs/netlink_linux.go:311-347 | so does the service loop, and it sets the address aside |
| IpvsCodec.AssembleService | internal/ipvs/netlink_linux.go:311-359 | the address is read under the family, wherever the two stand in the list |
| IpvsCodec.CollectDestination | internal/ipvs/netlink_linux.go:417-452 | the destination loop, field by field |
| IpvsCodec.AssembleDestination | internal/ipvs/netlink_linux.go:417-477 | a missing family is inferred from the address bytes |
| IpvsCodecProofs.ServiceOrderIrrelevant | internal/ipvs/netlink_linux.go:311-359 | any order of distinct attributes decodes to the same service |
| IpvsCodecProofs.DestinationOrderIrrelevant | internal/ipvs/netlink_linux.go:417-477 | any order of distinct attributes decodes to the same destination |
| IpvsCodecProofs.WeightRoundTrip | internal/ipvs/netlink_linux.go:113 | four bytes written, two read: the low half on little-endian hosts, the high half on big-endian ones |
| IpvsCodecProofs.FlagsRoundTrip | internal/ipvs/netlink_linux.go:93-97 | the flags word comes back, the mask does not disturb it |
| IpvsCodecProofs.ServiceRoundTrip | internal/ipvs/netlink_linux.go:74-101 | decoding an encoded service gives back every encoded field; under a firewall mark address, port and protocol are zero |
| IpvsCodecProofs.WrongFamilyLosesAddress | internal/ipvs/netlink_linux.go:258-271 | an IPv6 service keeps its address if and only if its family says IPv6 |
| IpvsCodecProofs.ServicePaddingIgnored | internal/ipvs/netlink_linux.go:258-271 | a zero-padded IPv4 service address decodes the same |
| IpvsCodecProofs.DestinationFieldsRecovered | internal/ipvs/netlink_linux.go:103-118 | port and thresholds come back, flags modulo 8, weight by halves |
| IpvsCodecProofs.DestinationRoundTrip | internal/ipvs/netlink_linux.go:454-476 | the address comes back if and only if it is IPv4 or has a non-zero byte after the first four |
| IpvsCodecProofs.DestinationPaddingIff | internal/ipvs/netlink_linux.go:479-502 | a zero-padded IPv4 destination decodes the same if and only if it is not 0.0.0.0 |
| IpvsCodecProofs.StatsRoundTrip | internal/ipvs/netlink_linux.go:274-308 | each statistic is read from its own attribute at its own width |
| IpvsCodecProofs.ReportedDestination | internal/ipvs/netlink_linux.go:417-477 | a destination as the kernel reports it decodes to itself, counters, family and statistics included, its weight by halves |
| IpvsCodecProofs.ReportedService | internal/ipvs/netlink_linux.go:311-359 | a service as the kernel reports it decodes to itself, statistics included |
| IpvsCodecProofs.ServiceRefusedIff | internal/ipvs/netlink_linux.go:311-359 | decoding a service fails exactly for unreadable statistics or an address of unknown family |
| IpvsCodecProofs.DestinationRefusedIff | internal/ipvs/netlink_linux.go:417-511 | so for a destination, and without a family for a missing or all-zero address |
| IpvsExecute.Execute | internal/ipvs/netlink_linux.go:204-256 | answers the reference over the whole stream, however it is cut into batches, and leaves the later batches |
| IpvsExecute.ReadBatch | internal/ipvs/netlink_linux.go:229-253 | one received batch read message by message, stopping inside it at the first terminator |
| IpvsExecute.FoldIsAnswer | internal/ipvs/netlink_linux.go:229-252 | collecting message by message gives the payload of the own messages up to their first terminator |
| IpvsExecute.StaleIgnored | internal/ipvs/netlink_linux.go:230-232 | messages of other requests in the socket change nothing |
| IpvsExecute.StaleDropped | internal/ipvs/netlink_linux.go:224-232 | they are consumed as well: the socket is left as if they had never been there |
| IpvsExecute.ReplyIsolation | internal/ipvs/netlink_linux.go:120-145 | each request of a serial run answers from its own reply alone, if no reply carries the number of the next request |
| IpvsExecute.RunIsolation | internal/ipvs/netlink_linux.go:120-145 | so for every serial run, however long, when each reply carries its request's 32-bit number |
| IpvsExecute.AnswerOfParts | internal/ipvs/netlink_linux.go:229-252 | the terminator decides: data of the parts in order, the kernel's error word, or a wrong pid |
| IpvsExecute.WaitsForTerminator | internal/ipvs/netlink_linux.go:213-252 | without a terminator the collector goes on waiting |
| IpvsExecute.RunAnswers | internal/ipvs/netlink_linux.go:120-145 | in a serial run each request ends as the terminator of its own reply says |
| IpvsExecute.LeftInSocket | internal/ipvs/netlink_linux.go:213-256 | the batch of the terminator is dropped as a whole and the later ones stay |
| IpvsExecute.TypedAnswer | internal/ipvs/netlink_linux.go:245-248 | asking for a type is collecting from the stream without the other types |
| IpvsExecute.NumbersRepeatIff | internal/ipvs/netlink_linux.go:122 | request numbers repeat exactly every 4294967296 requests, and the first is 1 |
| IpvsExecute.Handle.DoCmdWithResponse | internal/ipvs/netlink_linux.go:120-145 | takes the next 32-bit number and collects from the socket |

## Left out

- gRPC, TLS, the command line tools, configuration loading and the generated protobuf code: plumbing; requests are method parameters.
- rosedb and JSON: the store is a map, marshalling is the identity, and its writes succeed.
- The byte layout of netlink attributes and messages (length, type, padding): it belongs to the netlink library, which is not part of this model. Attributes are (kind, bytes) pairs, and splitting a nested attribute is a parameter.
- Sockets, namespaces, modprobe, receive timeouts and socket errors: a stream that ends without a terminator gives the outcome `Blocked`.
- Concurrent handlers and failures of the kernel or store on the deleting side: the code has neither locking nor rollback.
- AddAddrAlias: does not model a failing AddrList, whose error the source drops. Link addresses are kept in 16-byte form with their mask length.
- Restore: a kernel refusal other than a duplicate is not modelled here, only in the handlers.
- AssembleService, AssembleDestination: attributes are at least as long as their readers need; on shorter ones the source panics.
- Create: assumes, when it must allocate, that the range does not end in the all-ones address or some address is free; otherwise the source scans for ever.
- HandleMappings: the kernel does not refuse on its own, and no two different keys have the same backend. The returned PortStatus list is not modelled.
- EnsureLoadBalancer: an address requested for a new load balancer is not held by another one; the state is owned before the call.
- GetLoadBalancer and GetLoadBalancers: they only read the store. UpdateLoadBalancer is HandleMappings on a stored load balancer.
- Configuration, flush and update commands of IPVS, and the lookup of the generic netlink family: one attribute each, nothing harder than the codec here.
- internal/proxmox/instance.go: node lookup through the Proxmox API.
- Error texts and logging; only the codes are modelled.
