# A verified model of the renderer's hard core

The repository compiles a network model into the Linux commands, rules and
reservations that bring a simulated site up under Containerlab. This project models the parts of it
that are protocols, searches, folds and codecs rather than field checks, and proves
what they promise. `dafny verify dfyconfig.toml` checks everything.

Commands, rules and prefixes are datatypes, not shell text: an address is a number with
its family, a prefix is an address and a length (possibly with host bits), a name is a
piece of text with the usual order. Where the original fills lists and dictionaries in
loops, a method does the same and its contract ties the result to a function or
relation about which the lemmas speak.

| file | part of the system |
|---|---|
| ExecBundles.dfy | command bundles started concurrently, ordered by generation-scoped markers |
| OverlayPaths.dfy | the site graph and the first hop on a shortest path |
| Addressing.dfy, NodeModel.dfy, RouteVia.dfy | interface addresses, peers, a node's routes and effective next hops |
| PolicyGroups.dfy, PolicyLanes.dfy | a lane's route groups with preference and eviction; lane collection |
| LaneRoutes.dfy, SelectorFields.dfy, ReservationFields.dfy, FirewallFields.dfy | the same results told in the fields of routes, selectors, records and matches |
| DestinationRules.dfy, SharedRules.dfy, CrossLanes.dfy, PolicyRender.dfy | claims, shared-interface and cross rules, the four phases together |
| DenyByDefault.dfy, RuleOrder.dfy | a whole rendering: tables entered without a route, and rule order |
| PolicyLookup.dfy, PolicyCapture.dfy | which rule decides a packet, and what captures it, read off the node |
| PolicyExamples.dfy, CaptureExample.dfy | concrete nodes and interface maps |
| RelationSelection.dfy | relation selectors and their direction pairs |
| ForwardingValidation.dfy | the validator that re-reads the rules |
| StaticRoutes.dfy | main-table routes and the table they leave after execution |
| DnsWire.dfy, DnsProxy.dfy | the message format of RFC 1035 and the local DNS answer |
| Reservations.dfy, ReservationDns.dfy, Ipv6Materializer.dfy | protected reservations, their DNS lines, delegated IPv6 prefixes |
| EthMaps.dfy | logical-to-runtime interface maps and link endpoints |
| PolicyFirewall.dfy | rule expansion and the meaning of the drop-policy chain |
| Common.dfy, Arithmetic.dfy, Sorting.dfy, Text.dfy | small shared theory |

## How to read the main results

*Bundles.* The state holds the markers on disk (each with the generation that wrote
it), a phase per bundle and the commands begun so far. Actions of all bundles interleave
freely; a restart resets every phase, keeps every marker and picks a generation that no
marker carries. `ExclusionNeedsFreshMarkers` shows that this freshness is not a
convenience: for any initial markers it is exactly what mutual exclusion needs.

*Failures.* `FailStop` is told by the actions: a command or a publication that fails, or the last
look for a marker that is not there, ends its script, and `FailedIff` says that nothing else does.

*Fields.* The functions of the model share predicates such as "this route may enter that lane".
So that no such predicate explains itself, the results that rest on one are stated again in the
fields of the input alone: `GroupHoldsIff` and `ClaimedGroupIff` for the hops of a lane's table,
`CrossRulesAreArgmax` and `CrossRuleKinds` for the lanes of Phase 4, `SelectorIff` and
`RenderedIff` for selectors, `PublishIff`, `AcceptedIff` and `LinesIff` for DNS lines,
`KeaRecordIff`, `HopsForIff`, `SharedInterfacesIff`, `SourcePrefixesIff`, `SuffixOfIff` and others.

*Policy groups.* Visiting a route produces at most one offer for a destination.
`GroupsAreFinalHops` replaces the stateful add, evict and prefer steps by a closed form.
The source compares the raw destination with normalised ones, so a destination spelled
with host bits passes the preference check; `OnlyTargetHopsIff` says for all inputs when
the target nevertheless owns the group, and `TargetRoutesPrevail` gives the promised
property for canonical destinations.

*Claims.* Phases 3 and 4 are a greedy first-claim pass over a list of candidate rules.
`SharedRulesAreArgmax` and `CrossRulesAreArgmax` describe the result without the pass.
The variable named `sorted_lanes_asc` is sorted in descending order; the model follows the
code. Phase 2 destination rules are outside the claim sets; `RenderingAcceptedIff` says
exactly when the validator accepts a rendering, and `RefusedNodeIsRefused` is a node it
refuses.

*Deny by default.* The comment at clabgen/s88/CM/linux_policy_routes.py:700-703 asks that every
lane be entered and drop what it has no route for. Only IPv4 gets a blackhole.
`DenyByDefaultIff` says for a whole rendering when no rule leads into a table without a route or
a blackhole, with selectors, claims and lanes that share a table all counted;
`UndroppedNodeIsNotDenied` is a node on which IPv6 traffic is led into such a table.

*Lookup.* `PolicyLookup` tries the rendered rules in priority order. Traffic with a claim never
falls through (`ClaimedTrafficIsDecided`). The comment at
clabgen/s88/CM/linux_policy_routes.py:826-840 wants lanes of smaller priority numbers to capture no
traffic of larger ones. Claims exclude each other only for one and the same destination and
ingress, so a lane's source rules, or its rules for a wider destination, still capture what another
lane claims: `SmallerLaneCaptures` is a node that renderer and validator accept and that shows it.
`NotCapturedIff` is the exact condition, over the node, its selectors and its lane rows.

*Firewall.* A chain decides by the first rule a packet hits. `RenderedChainMeansPolicy` compares
the rendered chain with a reading of the policy that knows nothing of rule lists or
repetition, though it still reads an entry family by family: an entry of family 4
without prefixes concerns IPv6 packets too, and `FamilyGateIff` says when the family binds.
An entry that cannot be expressed between interfaces falls back to its tenants, where state,
family and prefixes are lost; `DestinationGateIff`, `ReturnGateIff` and `SourceGateExactly` give the
exact conditions under which those gates hold, and
`FallbackLosesGates`, `FamilyFourHitsIpv6` and `NeighbourIsHit` are entries that escape them.

*Documentation and code.* The reservation materializer's remark that output is stable across
input order holds for acceptance and for the lines; the diagnostic of a rejected input can
depend on the order, exactly when `DiagnosticIgnoresOrderIff` says so.

## Model

| member | source | states |
|---|---|---|
| ExecBundles.BundleExecCommands | clabgen/s88/site/node_runtime.py:328-372 | the bundles, numbered from 1 and each waiting for the one before, concatenate to exactly the non-blank commands, all full except possibly the last; an error exactly for a non-positive size with something to run |
| ExecBundles.NonBlankOne | clabgen/s88/site/node_runtime.py:333 | a command is kept exactly if it has a character that is not white space |
| ExecBundles.OrderedExecution | clabgen/s88/site/node_runtime.py:340-371 | in every interleaving, through any number of restarts that leave markers behind, the commands begun in a generation are a prefix of the whole list and at most one bundle is past its wait |
| ExecBundles.InvStep | clabgen/s88/site/node_runtime.py:340-371 | each protocol step keeps the invariant on markers, phases and log, moving the frontier bundle by at most one |
| ExecBundles.InvAfter | clabgen/s88/site/node_runtime.py:340-371 | the invariant holds after every run |
| ExecBundles.LogIsPrefix | clabgen/s88/site/node_runtime.py:340-371 | the invariant alone makes the log a prefix of all the bundles' commands |
| ExecBundles.ExclusionNeedsFreshMarkers | clabgen/s88/site/node_runtime.py:348-355 | mutual exclusion over all runs holds if and only if no bundle that another waits for already has a marker of this generation |
| ExecBundles.StaleMarkerRun | clabgen/s88/site/node_runtime.py:348-355 | with one such marker there is a concrete run in which two bundles are past their waits |
| ExecBundles.MarkersStay | clabgen/s88/site/node_runtime.py:347-371 | after every run, with any restarts, the markers are the old ones and those published in it, each under the generation of that moment |
| ExecBundles.Simulates | clabgen/s88/site/node_runtime.py:340-371 | markers of no interest to any waiting bundle never change which phases a run reaches |
| ExecBundles.GenerationTerminates | clabgen/s88/site/node_runtime.py:341-371 | each step uses up poll attempts or commands: a run without restart is no longer than what was left at its start |
| ExecBundles.FailureIsFinal | clabgen/s88/site/node_runtime.py:346-366 | a bundle that failed or timed out stays failed for the rest of the generation |
| ExecBundles.FailedIff | clabgen/s88/site/node_runtime.py:346-371 | in every run a bundle has failed exactly when since the last restart one of its commands or its publication failed, or its look number 600 for the predecessor's marker found none |
| ExecBundles.FailStop | clabgen/s88/site/node_runtime.py:346-371 | after an action that fails, whatever follows without a restart, the bundle publishes nothing; after a command the log ends with that command, after a publication it does not grow, after a wait that ran out it stays before the bundle |
| ExecBundles.FailedBundleBoundsLog | clabgen/s88/site/node_runtime.py:346-366 | the log of a generation with a failed bundle ends within that bundle's begun commands |
| ExecBundles.FirstUnfinishedCanMove | clabgen/s88/site/node_runtime.py:341-371 | the first unfinished bundle always has a step to take (no deadlock) |
| ExecBundles.CompleteWhenQuiescent | clabgen/s88/site/node_runtime.py:341-371 | when no step but a restart is left, and since the last one no command or publication failed and no wait ran out, the whole list was begun |
| OverlayPaths.Adjacency | clabgen/s88/site/overlay_paths.py:77-91 | the graph has the site's nodes and an edge exactly between two different site nodes that share a link |
| OverlayPaths.AddLink | clabgen/s88/site/overlay_paths.py:83-90 | one link adds the edges between its distinct members and no other |
| OverlayPaths.AdjacencySymmetricIrreflexive | clabgen/s88/site/overlay_paths.py:77-91 | the graph is symmetric, irreflexive and closed over its nodes |
| OverlayPaths.FirstHopFromPolicy | clabgen/s88/site/overlay_paths.py:94-126 | on the site's graph: nothing exactly when the target is the policy node, absent or unreachable; else the least-named neighbour on a shortest path, so its distance to the target is one less |
| OverlayPaths.SearchFirstHop | clabgen/s88/site/overlay_paths.py:102-126 | the queue search and the walk back give that result and terminate |
| OverlayPaths.Expand | clabgen/s88/site/overlay_paths.py:105-113 | taking one node from the queue and adding its unseen neighbours in name order keeps the search invariant |
| OverlayPaths.WalkBack | clabgen/s88/site/overlay_paths.py:118-126 | following parents from the target terminates at the tree's first hop of the target |
| OverlayPaths.SnapshotFirstHop | clabgen/s88/site/overlay_paths.py:102-126 | whenever a node comes to the head of the queue its first hop is already the least-named one on a shortest path |
| OverlayPaths.FirstHopIsLeast | clabgen/s88/site/overlay_paths.py:102-126 | no neighbour that starts an equally short walk has a smaller name than the recorded first hop |
| OverlayPaths.Discover | clabgen/s88/site/overlay_paths.py:105-113 | adding an unseen neighbour keeps the tree, the order of the queue and the closure of the expanded set |
| OverlayPaths.Retire | clabgen/s88/site/overlay_paths.py:103-113 | a node whose neighbours are all seen can be moved to the expanded set |
| OverlayPaths.FoundWithin | clabgen/s88/site/overlay_paths.py:102-113 | every walk from the policy node of at most the head's depth ends in a node already found |
| OverlayPaths.ExhaustedSearch | clabgen/s88/site/overlay_paths.py:115-116 | with an empty queue an unseen target is unreachable |
| Addressing.NormalizeL3AddrLaws | clabgen/s88/CM/linux_addressing.py:25-58 | normalising an interface address is idempotent, keeps its network, and leaves a tenant on a network address only in a block of at most two |
| Addressing.PeerIsOnLink | clabgen/s88/CM/linux_addressing.py:96-126 | a peer exists exactly on blocks of two or more addresses; it is in the block, differs from the address, and on IPv4 blocks shorter than /31 is neither network nor broadcast address |
| Addressing.PeerIs | clabgen/s88/CM/linux_addressing.py:96-126 | the peer is the other address of a block of two, else the first behind the network address, or the second where the interface has that |
| Addressing.NormalizeL3AddrIs | clabgen/s88/CM/linux_addressing.py:25-58 | only a tenant's network address on a block of more than two moves, to the address behind it |
| Addressing.PeerIsInvolution | clabgen/s88/CM/linux_addressing.py:61-126 | on /31 and /127 the two peer computations agree and the peer's peer is the address itself |
| Addressing.ParityPeerIsPeer | clabgen/s88/CM/linux_routes.py:306-334 | the octet-parity arithmetic of default routes yields the same /31 peer |
| NodeModel.NormalizePrefixIdempotent | clabgen/s88/CM/linux_route_values.py:51-70 | normalising a destination twice changes nothing more, over-long IPv4 lengths included |
| RouteVia.EffectiveViaIsOnLink | clabgen/s88/CM/linux_route_via.py:36-87 | a next hop survives exactly when it is the wanted one, is not an address of the node, and off an overlay is on the interface's own link |
| RouteVia.UplinkAlwaysHasPeer | clabgen/s88/CM/linux_route_via.py:36-87 | an uplink route without a usable hop gets the link peer, unless that peer is a local address |
| RouteVia.LocalIpsIff | clabgen/s88/CM/linux_route_state.py:80-159 | the node's own addresses are its loopback, its interfaces' normalised addresses and link-local ones, except those a WAN link takes for its peer |
| RouteVia.ConnectedPrefixesIff | clabgen/s88/CM/linux_route_state.py:20-77 | the connected prefixes are the networks of the loopback and of such interface addresses |
| PolicyGroups.PolicyGroupsForLane | clabgen/s88/CM/linux_policy_routes.py:252-348 | the loops over interfaces and routes leave the groups that the spelled-out sequence of offers leaves |
| PolicyGroups.VisitIface | clabgen/s88/CM/linux_policy_routes.py:270-347 | one interface's routes change groups and preferred set as their offers do, one after the other |
| PolicyGroups.GroupsAreFinalHops | clabgen/s88/CM/linux_policy_routes.py:225-249 | the add, evict and prefer steps leave for each destination the hops of a closed form: before any claim all distinct hops, from the first claim on the target's hops and whatever slips past the preference check |
| PolicyGroups.PreferredIsClaimed | clabgen/s88/CM/linux_policy_routes.py:305-318 | a destination is preferred exactly when the target claimed it, and is then in normal form |
| PolicyGroups.GroupsAreProper | clabgen/s88/CM/linux_policy_routes.py:225-348 | every group in the result is non-empty and free of duplicates |
| PolicyGroups.GroupsComeFromRoutes | clabgen/s88/CM/linux_policy_routes.py:252-348 | every destination in a lane's table is the normalised destination of some route of the family on the node |
| LaneRoutes.MayEnterIff | clabgen/s88/CM/linux_policy_routes.py:84-108 | a policy-only route may enter a lane exactly if it has the lane's access and uplinks that do not contradict, or no access, a default destination and a shared uplink, or a shared uplink where the lane has no access |
| LaneRoutes.RouteSurfaceIff | clabgen/s88/CM/linux_policy_routes.py:189-222 | a route leaves by the first interface in name order whose network holds its next hop, else by the first of its lane if mapped, else by its own |
| LaneRoutes.GroupHoldsIff | clabgen/s88/CM/linux_policy_routes.py:252-348 | for a destination the target does not claim, a hop is in the lane's group exactly when a route to it brings it: one of the target's own that is not policy-only, or a policy-only one that may enter; connected ones directly, others by the interface they leave by, none to an address of another access |
| LaneRoutes.ClaimedGroupIff | clabgen/s88/CM/linux_policy_routes.py:252-348 | for a claimed destination the group holds exactly the hops of the target's own routes from its first claiming one on, and of differently spelled routes of later interfaces |
| PolicyExamples.RouteStaysInItsAccess | clabgen/s88/CM/linux_policy_routes.py:99-100 | a concrete node: a policy-only route of one access gives the other access's lane no hop |
| PolicyGroups.OnlyTargetHopsIff | clabgen/s88/CM/linux_policy_routes.py:305-318 | a claimed destination holds only the target's hops if and only if every hop offered later under a spelling that is not in normal form is one of them; the target's own hops are always there |
| PolicyGroups.MisspelledPrefixSlipsThrough | clabgen/s88/CM/linux_policy_routes.py:310-318 | whenever the target's offer for a network is followed by another interface's offer spelling it with host bits, the group keeps both hops |
| PolicyExamples.SpelledNodeSlipsThrough | clabgen/s88/CM/linux_policy_routes.py:252-348 | a concrete node and interface map with that outcome: its lane sees exactly those two offers, for 10.0.0.0/24 and 10.0.0.1/24 |
| PolicyGroups.HostBitsExample | clabgen/s88/CM/linux_policy_routes.py:310-318 | such a spelling exists: 10.0.0.1/24 for 10.0.0.0/24 |
| PolicyGroups.TargetRoutesPrevail | clabgen/s88/CM/linux_policy_routes.py:252-348 | with canonical destinations, once a target route claims a destination every final hop for it comes from a route of the target, wherever the target falls in name order |
| PolicyLanes.PolicyRoutingAllocation | clabgen/s88/CM/linux_policy_routes.py:382-420 | accepted exactly with a known source and positive table, rule priority and (if present) suppression priority; nothing is invented |
| PolicyLanes.CollectLanes | clabgen/s88/CM/linux_policy_routes.py:688-714 | the rows of all policy surfaces in name order, or the first interface's error |
| PolicyLanes.LanesAreTheSurfaces | clabgen/s88/CM/linux_policy_routes.py:688-714 | collection succeeds exactly when every surface has an allocation; then there is one row per mapped policy surface, in strictly rising name order |
| PolicyLanes.SurfaceIff | clabgen/s88/CM/linux_policy_routes.py:111-127 | an interface gets a lane exactly if it is mapped and has an access, or an uplink, a policy-only route and an allocation |
| PolicyLanes.RowFields | clabgen/s88/CM/linux_policy_routes.py:688-714 | a row has the interface's names, its lane's access and kind, and the table, priority and suppression number of its allocation |
| PolicyLanes.SharedInterfacesIff | clabgen/s88/CM/linux_policy_routes.py:130-185 | the interfaces sharing a lane are the mapped ones without an access that share an uplink, and those from which an accepting forwarding rule leads to the lane, by logical or runtime name |
| DestinationRules.ClaimDestinations | clabgen/s88/CM/linux_policy_routes.py:854-873 | the loop that grows the claim set emits the first rule per (family, destination, ingress) and remembers exactly the keys emitted |
| DestinationRules.FirstPerKeyDistinct | clabgen/s88/CM/linux_policy_routes.py:841-949 | no key is emitted twice |
| DestinationRules.KeptIsFirst | clabgen/s88/CM/linux_policy_routes.py:841-949 | a rule is kept exactly when it is the first offered for its key |
| DestinationRules.FirstPerKeyExtends | clabgen/s88/CM/linux_policy_routes.py:841-949 | later offers never change an earlier claim |
| DestinationRules.RulesForMembers | clabgen/s88/CM/linux_policy_routes.py:854-873 | the offers of one lane are exactly its non-default destinations crossed with the shared interfaces |
| SharedRules.ClaimTable | clabgen/s88/CM/linux_policy_routes.py:848-873 | one lane claims its IPv4 and IPv6 destinations on its shared interfaces |
| SharedRules.SharedInterfaceRules | clabgen/s88/CM/linux_policy_routes.py:826-873 | Phase 3 as written (the list called ascending is sorted descending) performs the claims in descending priority |
| SharedRules.SharedRulesAreArgmax | clabgen/s88/CM/linux_policy_routes.py:826-873 | the greedy pass is an argmax: a rule is emitted if and only if its lane is the best one serving that destination and ingress, and it then points to that lane's table at its priority |
| SharedRules.ServesIff | clabgen/s88/CM/linux_policy_routes.py:844-873 | a lane serves a key exactly if it routes the destination, which is no default, and shares the interface of that runtime name |
| SharedRules.TiesGoToLeastName | clabgen/s88/CM/linux_policy_routes.py:843 | among serving lanes of equal priority the best one has the least interface name |
| SharedRules.FirstSuchIsBest | clabgen/s88/CM/linux_policy_routes.py:843 | the stable descending sort puts the best lane with a property before every other lane with it |
| CrossLanes.ClaimCrossOfAccess | clabgen/s88/CM/linux_policy_routes.py:905-949 | the cross loops for one access perform exactly its upstream-times-downstream claims |
| CrossLanes.CrossRules | clabgen/s88/CM/linux_policy_routes.py:875-949 | Phase 4 continues the claims of Phase 3 with the cross rules of every access |
| CrossLanes.CrossRulesAreArgmax | clabgen/s88/CM/linux_policy_routes.py:875-949 | where Phase 3 serves nothing, the interface of a single lane gets a cross rule exactly if it is an uplink or access lane with routes: at its own priority, to the table of the access or access-edge lane of the same access, with another table and the destination, that has the highest priority number |
| PolicyCapture.CrossRuleKinds | clabgen/s88/CM/linux_policy_routes.py:875-949 | no Phase 4 rule is on the interface of an access-edge lane, and none leads into a table that only uplink lanes have |
| CaptureExample.UplinkSendsToEdge | clabgen/s88/CM/linux_policy_routes.py:908-949 | a concrete uplink and edge lane of one access: exactly the one cross rule from the uplink to the edge's network |
| CrossLanes.ClaimsAreExclusive | clabgen/s88/CM/linux_policy_routes.py:835-949 | Phases 3 and 4 together never emit two rules for one family, destination and ingress; Phase 4 keeps all of Phase 3 and adds only unclaimed keys |
| RelationSelection.SelectorPrecedesItsLane | clabgen/s88/CM/relation_selection_rules.py:98-176 | an accepted selector names the table of its policy interface's lane row, at a positive priority below the row's |
| RuleOrder.SelectorPrecedesLaneRules | clabgen/s88/CM/relation_selection_rules.py:98-231 | over a whole rendering: the selector's rule is rendered, and every Phase 2, 3 or 4 rule into its table comes strictly after it, unless that rule is the own rule of a different lane sharing the table or the cross rule of a different, upstream lane |
| RuleOrder.RenderedFromLanes | clabgen/s88/CM/linux_policy_routes.py:716-949 | each rule of a rendering that no selector put there is a lane's own, at its priority into its table, or the cross rule of an upstream lane into its partner's table |
| PolicyLookup.ClaimedTrafficIsDecided | clabgen/s88/CM/linux_policy_routes.py:826-949 | when the rendered rules are tried in priority order, a packet that matches a claim of Phase 3 or 4 is always decided, no later than by that claim, and by a selector, a main-table check, or the rule of a lane or a pair of lanes |
| PolicyCapture.LaneMeaning | clabgen/s88/CM/linux_policy_routes.py:578-824 | for any packet: some rule of a lane, some main-table check of it, or some route in its table concerns the packet exactly when the node's prefixes, the resolver's addresses and the lane's route groups say so |
| PolicyCapture.HasRouteIff | clabgen/s88/CM/linux_policy_routes.py:685-949 | a table of a rendering has a route for a packet exactly when some lane with that table covers its destination, drops it, or reaches the resolver's subnet |
| PolicyCapture.ClaimBelowIff | clabgen/s88/CM/linux_policy_routes.py:841-949 | where no two lanes share a runtime interface, Phases 3 and 4 claim a key below a number exactly when all lanes that serve it have smaller numbers, or none serves it and a smaller upstream lane on the ingress has a partner for it |
| PolicyCapture.PriorityIff | clabgen/s88/CM/linux_policy_routes.py:685-949 | for any packet the rule that decides it has a number below a bound if and only if below the bound an accepted selector, a main-table check, a lane or a claim captures it, each stated over the node and its lane rows; for injective interface maps |
| PolicyCapture.NotCapturedIff | clabgen/s88/CM/linux_policy_routes.py:826-949 | whatever decides a packet that matches a claim has the claim's own priority, if and only if nothing with a smaller number captures it: no accepted selector or lane whose table answers, no main-table check, no other claim |
| CaptureExample.SmallerLaneCaptures | clabgen/s88/CM/linux_policy_routes.py:826-840 | a concrete node that the renderer and the validator accept and on which a packet to a network claimed at priority 2000 is decided at priority 1000, into the other lane's table |
| RelationSelection.SelectorPrefixesAreBounded | clabgen/s88/CM/relation_selection_rules.py:57-67 | accepted source and destination are normalised, of the selector's family and not default |
| RelationSelection.ValidateDirectionPairs | clabgen/s88/CM/relation_selection_rules.py:179-204 | accepts exactly the lists whose every (relation, family) group is two selectors mirroring each other under one state owner |
| RelationSelection.AcceptedPairsAreAnInvolution | clabgen/s88/CM/relation_selection_rules.py:179-204 | acceptance is equivalent to each selector having a partner with source and destination swapped; partnership is symmetric, unique and never with itself |
| RelationSelection.RenderRelationSelectionRules | clabgen/s88/CM/relation_selection_rules.py:207-231 | succeeds exactly when every selector validates and the pairing is accepted, and then renders exactly one rule per distinct selector rule |
| SelectorFields.SelectorIff | clabgen/s88/CM/relation_selection_rules.py:37-176 | a selector is accepted with a given rule exactly as its fields say: authority, direction, texts and positive numbers; ingress the runtime name of the one interface that incomingInterface names, from and to the networks of its prefixes; the policy interface owns the table, at a later number, with exactly one matching policy-only route |
| SelectorFields.AcceptedIff | clabgen/s88/CM/relation_selection_rules.py:98-231 | all selectors are accepted exactly when each says a rule and has its one counterpart of the same relation and family, with the other direction, the same owner and the prefixes exchanged |
| SelectorFields.RenderedIff | clabgen/s88/CM/relation_selection_rules.py:207-231 | the rendered rules are exactly those that the raw selectors say |
| RelationSelection.Rendered | clabgen/s88/CM/relation_selection_rules.py:217-231 | the rules of all selectors, none twice |
| PolicyRender.Phase2DestinationRules | clabgen/s88/CM/linux_policy_routes.py:578-773 | Phase 2 puts destination rules on the lanes' own interfaces for their own network and connected destinations, for lanes whose table is not empty (uplinks: has a default), and no others |
| PolicyRender.SourcePrefixesIff | clabgen/s88/CM/linux_policy_routes.py:434-472 | an interface's source prefixes are its own network, if longer than two addresses, and its connected destinations of the family, with reachable ones also those of routes with an access node; no default |
| PolicyRender.LaneIsEnteredIff | clabgen/s88/CM/linux_policy_routes.py:716-824 | of one lane's own Phase 2 commands: some rule leads into its table, for a lane that is no uplink always for IPv4 and for IPv6 exactly with IPv6 routes or no routes at all, for an uplink exactly with a default; its table gets a route or a blackhole exactly with routes of the family, or for IPv4 when it is no uplink |
| DenyByDefault.TableFilledIff | clabgen/s88/CM/linux_policy_routes.py:685-949 | in a whole rendering a table holds a route or a blackhole of a family exactly when some lane with that table fills it |
| DenyByDefault.TableEnteredIff | clabgen/s88/CM/linux_policy_routes.py:685-949 | in a whole rendering some rule leads into a table exactly when a lane with that table has one, an accepted selector names it, or Phase 3 or 4 claims a key for it |
| DenyByDefault.DenyByDefaultIff | clabgen/s88/CM/linux_policy_routes.py:685-949 | in a whole rendering no rule leads into a table without a route or a blackhole of its family, if and only if every accepted selector names a table that some lane fills for its family and every lane without any route, uplinks aside, shares its table with a lane that has IPv6 routes |
| PolicyExamples.UndroppedNodeIsNotDenied | clabgen/s88/CM/linux_policy_routes.py:699-824 | a concrete node that the renderer accepts and in whose every rendering IPv6 rules lead into a table with neither route nor blackhole |
| PolicyRender.LaneCommandsAtLanePriority | clabgen/s88/CM/linux_policy_routes.py:578-824 | Phase 2 renders a lane's routes into its table, its rules at its priority into that table, and main-table checks at its suppression priority |
| PolicyRender.Render | clabgen/s88/CM/linux_policy_routes.py:685-949 | Phases 1 to 4: fails exactly on rejected selectors or allocations; else selector rules, then Phase 2, then the rules Phases 3 and 4 claim; when the validator accepts the result is RenderingAcceptedIff |
| ForwardingValidation.ValidatePolicyRules | clabgen/s88/CM/fs370_forwarding_validation.py:134-157 | accepts exactly the rule lists that map (family, destination, ingress) to one (priority, table) and have no default destination; a reported error names a rule or pair that is there |
| ForwardingValidation.ClaimedRulesAreAccepted | clabgen/s88/CM/fs370_forwarding_validation.py:134-157 | with families consistent, everything Phases 3 and 4 emit is accepted |
| ForwardingValidation.RenderingAcceptedIff | clabgen/s88/CM/fs370_forwarding_validation.py:134-157 | for an injective interface map and tables that keep to their family, the validator accepts a rendering if and only if no lane's own prefix is a default, or is served on its interface by a best lane with another priority or table, or (on an unserved upstream interface) by any partner |
| ForwardingValidation.RoutesGiveFamilies | clabgen/s88/CM/linux_policy_routes.py:252-348 | when every route list of the node holds destinations of its own family, every lane's tables do too |
| PolicyExamples.RefusedNodeIsRefused | clabgen/s88/CM/fs370_forwarding_validation.py:134-157 | a concrete node that the renderer accepts and whose every rendering the validator refuses |
| DnsWire.NameDecodes | clabgen/s88/CM/dns_proxy_protocol.py:11-19 | the wire form of plain labels decodes to them and ends where it ends (section 3.1 of RFC 1035) |
| DnsWire.DecodedNameStands | clabgen/s88/CM/dns_proxy_protocol.py:22-37 | whatever decodes as a name is the wire form of the decoded labels |
| DnsWire.WireNameInjective | clabgen/s88/CM/dns_proxy_protocol.py:11-19 | two label lists with the same wire form are equal when one of them is a plain name (labels of 1 to 63 octets) |
| DnsWire.RecordsDecode | clabgen/s88/CM/dns_proxy_protocol.py:63-67 | resource records written one after the other decode to themselves with nothing left over (section 4.1.3 of RFC 1035) |
| DnsWire.MessageDecodes | clabgen/s88/CM/dns_proxy_protocol.py:69-71 | header counts, one question and the counted answers make a complete message (section 4.1 of RFC 1035) |
| DnsProxy.EncodeName | clabgen/s88/CM/dns_proxy_protocol.py:11-19 | the loop yields the stripped name cut at its dots, each part behind its size, and errors exactly on an over-long or non-ASCII part |
| DnsProxy.ParseQuestion | clabgen/s88/CM/dns_proxy_protocol.py:22-44 | the loop finds a question exactly where the message format has a name followed by type and class inside the query |
| DnsProxy.EncodedQuestionParses | clabgen/s88/CM/dns_proxy_protocol.py:11-44 | round trip: for dot-free ASCII labels of 1 to 63 octets, the root included, parsing the encoded question gives back the lower-cased name, type, class and the question's own bytes |
| DnsProxy.CleanNameEncodes | clabgen/s88/CM/dns_proxy_protocol.py:11-44 | round trip the other way: a parsed dot-free ASCII name encodes to its lower-cased wire form |
| DnsProxy.ParsedNameRoundTrip | clabgen/s88/CM/dns_proxy_protocol.py:11-44 | that round trip holds if and only if every label is dot-free ASCII |
| DnsProxy.ParsedNameEncodes | clabgen/s88/CM/dns_proxy_protocol.py:11-44 | a name taken from a query can always be encoded again, whatever its octets |
| DnsProxy.AddAddressAnswers | clabgen/s88/CM/dns_proxy_protocol.py:130-136 | appends one answer per text that is an address of the family, in order, and skips the rest |
| DnsProxy.AddRecordAnswers | clabgen/s88/CM/dns_proxy_protocol.py:120-127 | A for types 1 and 255, AAAA for 28 and 255, appended in that order |
| DnsProxy.MatchingAnswersMembers | clabgen/s88/CM/dns_proxy_protocol.py:47-136 | an answer is given exactly when some record of the queried name holds, under a type that was asked for, an entry that parses to it |
| DnsProxy.RecordNameIff | clabgen/s88/CM/dns_proxy_protocol.py:52-56 | a record bears its name without the dots at its end, in lower case, and one dot |
| DnsProxy.LocalAnswer | clabgen/s88/CM/dns_proxy_protocol.py:47-71 | no answer exactly when the query has no question or nothing matches; an error exactly when the answers overflow the 16-bit count; else the assembled response |
| DnsProxy.LocalAnswerDecodes | clabgen/s88/CM/dns_proxy_protocol.py:63-71 | for a query with one question and dot-free ASCII labels, the assembled response decodes to the query's ID, its unchanged question and exactly the given answers owned by the lower-cased name, with no byte left over |
| DnsProxy.LocalAnswerDecodesIff | clabgen/s88/CM/dns_proxy_protocol.py:47-71 | what the proxy returns for its local records decodes to that message, with exactly the matching records, if and only if every label of the queried name is dot-free ASCII |
| DnsProxy.DottedLabelIsLost | clabgen/s88/CM/dns_proxy_protocol.py:22-71 | a concrete query whose single label contains octet 46, and a record of that name: the proxy answers, and the answer does not decode to what was asked |
| Reservations.DuidNormalForm | docker-clab-frr-plus-tooling/protected-reservation-materializer.py:70-76 | normalising is idempotent and identifies exactly the texts with equal hex digits |
| Reservations.MaterializeRecords | docker-clab-frr-plus-tooling/protected-reservation-materializer.py:121-186 | accepts exactly non-empty lists whose records all pass and are pairwise distinct in handle, identity and address; output is in order, inside the subnet, and flagged out-of-pool exactly when some address is |
| ReservationFields.KeaRecordIff | docker-clab-frr-plus-tooling/protected-reservation-materializer.py:95-172 | a record passes as a given reservation exactly as its fields say: no foreign field, handle, scope, hostname, the identity of the family, an address in the network |
| ReservationFields.Ipv6IdentityIff | docker-clab-frr-plus-tooling/protected-reservation-materializer.py:104-118 | an IPv6 identity is accepted exactly with its five fields, a stable identifier of sixteen hex digits that is the low half of the address, a client identifier of 2 to 130 octets and a 32-bit number |
| ReservationFields.MacIff | docker-clab-frr-plus-tooling/protected-reservation-materializer.py:47 | a hardware address has colons at five places and hex digits at twelve |
| Reservations.InsertReservations | docker-clab-frr-plus-tooling/protected-reservation-materializer.py:284-313 | accepts exactly one subnet whose old and new reservations are pairwise distinct as texts, in identity and in address, and then appends the new ones |
| Reservations.PassedIsMaterialised | docker-clab-frr-plus-tooling/protected-reservation-materializer.py:121-186 | materialized reservations are distinct, inside the subnet, and carry identities in normal form |
| Reservations.MergesReserveOnceIff | docker-clab-frr-plus-tooling/protected-reservation-materializer.py:297-309 | accepted merges never reserve one address or identity twice, however spelled, if and only if the template spells its own canonically |
| Reservations.MergeReservesTwice | docker-clab-frr-plus-tooling/protected-reservation-materializer.py:297-309 | the input on which that fails: a template with ::0005 beside a record for ::5 |
| Reservations.CountMeansDistinct | docker-clab-frr-plus-tooling/protected-reservation-materializer.py:304-309 | comparing set size with list size tests pairwise distinctness |
| Reservations.MergeFailsOnlyOnTemplate | docker-clab-frr-plus-tooling/protected-reservation-materializer.py:284-313 | after materializing, a merge fails exactly on equal texts inside the template or between it and a new record |
| ReservationDns.MaterializeDnsLines | docker-clab-frr-plus-tooling/protected-reservation-materializer.py:189-281 | the scan that updates owners, names and handles, then the sorted output; errors first for the request, then for the first bad record |
| ReservationFields.PublishIff | docker-clab-frr-plus-tooling/protected-reservation-materializer.py:206-248 | a single record is published, refused for its missing hostname, or refused, exactly as its fields say; its name is hostname, dot and namespace in lower case, its addresses those of requested classes, or all if only pointers find one |
| ReservationFields.AcceptedIff | docker-clab-frr-plus-tooling/protected-reservation-materializer.py:189-262 | the lines exist exactly for an accepted request with records that all pass and give no address a second name |
| ReservationFields.LinesIff | docker-clab-frr-plus-tooling/protected-reservation-materializer.py:206-281 | a forward line exists exactly for a record's name and its address of a requested class, a pointer exactly, if requested, for a published address and its name |
| ReservationFields.HandlesIff | docker-clab-frr-plus-tooling/protected-reservation-materializer.py:217-221 | the handles are those of the records |
| ReservationFields.NamespaceIff | docker-clab-frr-plus-tooling/protected-reservation-materializer.py:51 | a namespace is a list of labels, each followed by a dot |
| ReservationDns.EnterPublication | docker-clab-frr-plus-tooling/protected-reservation-materializer.py:204-260 | one record's addresses enter the books unless some address belongs to another name |
| ReservationDns.WriteLines | docker-clab-frr-plus-tooling/protected-reservation-materializer.py:262-281 | the nested loops write the lines name by name, IPv4 before IPv6, addresses in numeric order |
| ReservationDns.ScanMeaning | docker-clab-frr-plus-tooling/protected-reservation-materializer.py:204-260 | the scan succeeds exactly when every record publishes and no two publications give one address to different names; the books then hold exactly what was published |
| ReservationDns.PermutationInvariant | docker-clab-frr-plus-tooling/protected-reservation-materializer.py:189-281 | permuting the records changes neither acceptance nor a single line |
| ReservationDns.OrderDoesNotMatter | docker-clab-frr-plus-tooling/protected-reservation-materializer.py:189-281 | nor does repeating records: only which records occur matters |
| ReservationDns.DiagnosticIgnoresOrderIff | docker-clab-frr-plus-tooling/protected-reservation-materializer.py:204-260 | a refused source is refused with the same error in every order if and only if it does not both lack some host name and hold a contract violation or ownership conflict |
| ReservationDns.DiagnosticFollowsOrder | docker-clab-frr-plus-tooling/protected-reservation-materializer.py:214-222 | two concrete records whose two orders report different errors |
| ReservationDns.LinesMeaning | docker-clab-frr-plus-tooling/protected-reservation-materializer.py:250-281 | the lines have no repetition and are exactly the published (name, address) pairs of the requested classes, plus a pointer per published pair when PTR is requested |
| ReservationDns.OnePointerPerAddress | docker-clab-frr-plus-tooling/protected-reservation-materializer.py:250-281 | with PTR each published address has exactly one pointer line, naming its single owner, and every A or AAAA line has its pointer |
| Ipv6Materializer.AcceptedSlotHasTenant | docker-clab-frr-plus-tooling/protected-ipv6-materializer.py:34-53 | without identifier, a tenant prefix results exactly for a canonical IPv6 parent of the declared length and a slot in range |
| Ipv6Materializer.TenantIsAligned | docker-clab-frr-plus-tooling/protected-ipv6-materializer.py:42-50 | a tenant prefix has no host bits, has the tenant length and lies in the parent |
| Ipv6Materializer.SlotsTileParent | docker-clab-frr-plus-tooling/protected-ipv6-materializer.py:42-50 | every address of the parent lies in the tenant prefix of exactly one slot, found by division |
| Ipv6Materializer.DistinctSlotsAreDisjoint | docker-clab-frr-plus-tooling/protected-ipv6-materializer.py:42-50 | two tenant prefixes that share an address are of the same slot |
| Ipv6Materializer.AddressIsInvertible | docker-clab-frr-plus-tooling/protected-ipv6-materializer.py:54-58 | with a /64 tenant an address results exactly for an identifier below 2^64, and slot and identifier can be read back from it |
| Ipv6Materializer.DerivedAddressIsReservable | docker-clab-frr-plus-tooling/protected-reservation-materializer.py:104-118 | the derived address with its identifier and a DUID passes the reservation materializer's IPv6 identity check |
| StaticRoutes.RenderStaticRoutes | clabgen/s88/CM/linux_routes.py:69-141 | exactly the host routes overlay interfaces ask for, then one route for exactly the IPv4, then the IPv6, destinations that collected a single distinct hop |
| StaticRoutes.CollectIface | clabgen/s88/CM/linux_routes.py:77-137 | one interface adds exactly its contributing hops and its host routes |
| StaticRoutes.HopsForIff | clabgen/s88/CM/linux_routes.py:69-140 | the hops of a destination are exactly those of the routes to it that are no policy-only, connected or default route, whose declared next hop is not local, and whose destination is not directly connected |
| StaticRoutes.AppendRouteGroups | clabgen/s88/CM/linux_routes.py:355-390 | one command per destination with a single hop, nothing for conflicting hops |
| StaticRoutes.ExecutedTable | clabgen/s88/CM/linux_routes.py:69-141 | executing the commands on an empty table leaves the one hop of a single-hop destination, else an overlay host route for that very destination if one is asked for, else nothing |
| StaticRoutes.ExecutedTableWithoutOverlays | clabgen/s88/CM/linux_routes.py:69-141 | without overlays the table holds exactly the single-hop destinations |
| StaticRoutes.OrderOfRoutesDoesNotMatter | clabgen/s88/CM/linux_routes.py:69-141 | reordering the routes an interface lists leaves the hops of every destination unchanged |
| StaticRoutes.SameTable | clabgen/s88/CM/linux_routes.py:69-141 | end to end: without overlays, nodes whose interfaces list the same routes in any order get equal routing tables from executing what is rendered for them |
| StaticRoutes.SameContribution | clabgen/s88/CM/linux_routes.py:85-137 | what a route contributes does not depend on the order of the others |
| EthMaps.ShortIfname | clabgen/s88/site/eth_map.py:11-16 | at most 15 characters, unchanged when the name already fits, and not empty unless the name is, whatever the digest |
| EthMaps.BuildEthMaps | clabgen/s88/site/eth_map.py:72-106 | the loops over links, interfaces and PPPoE services handle the requests in the source's order and stop at the first error |
| EthMaps.MapLinks | clabgen/s88/site/eth_map.py:79-90 | the link loop, in link and node name order |
| EthMaps.MapNodes | clabgen/s88/site/eth_map.py:92-104 | the node loop: tenant and overlay interfaces, then PPPoE services |
| EthMaps.HandleStep | clabgen/s88/site/eth_map.py:36-51 | one mapping succeeds exactly when it resolves and collides with nothing asked before, and keeps the two maps exact inverses |
| EthMaps.HandleAllMeaning | clabgen/s88/site/eth_map.py:36-106 | the maps are built exactly when every request resolves and no two interfaces of a node share a runtime name; then both maps are exact inverses per node |
| EthMaps.BuiltMapsAreInjectiveAndComplete | clabgen/s88/site/eth_map.py:72-106 | on success exactly the needed interfaces are mapped, each to its declared name of at most 15 characters, injectively per node |
| EthMaps.NeededIff | clabgen/s88/site/eth_map.py:72-106 | the interfaces to map are those link endpoints name, tenant and overlay ones, and those of PPPoE services |
| EthMaps.TargetIff | clabgen/s88/site/eth_map.py:11-33 | the runtime name is the declared one up to fifteen characters, else the first fifteen of its digest behind a prefix |
| EthMaps.EndpointsRenderDistinctly | clabgen/s88/site/links.py:14-34 | on success no link endpoint can raise, and two endpoints of nodes with unconfusable names render the same text only if they are the same interface |
| EthMaps.TextsApartIff | clabgen/s88/site/links.py:34 | two nodes' endpoint texts differ for all interface names if and only if neither node name is the other, a colon and at most 13 characters |
| EthMaps.SitesRenderApartIff | clabgen/s88/site/links.py:14-34 | every buildable site over given node names renders its endpoints apart if and only if no two of the names are so confusable; otherwise a concrete two-node site renders them alike |
| PolicyFirewall.RulesForCpmRule | clabgen/s88/CM/cpm_firewall_rules.py:277-353 | the family and match loops yield the expanded rules or the first error |
| PolicyFirewall.ExplicitMatchSuffixes | clabgen/s88/CM/cpm_firewall_rules.py:96-108 | one protocol part per applying match, in order, or the first unrenderable ICMP match |
| FirewallFields.SuffixOfIff | clabgen/s88/CM/cpm_firewall_rules.py:55-93 | control messages become the family's protocol without ports, those of the other family are an error, any other protocol keeps its lower-cased name and ports |
| FirewallFields.EntryIff | clabgen/s88/CM/cpm_firewall_rules.py:111-140 | which entries between interfaces are errors of state, and that every rule keeps its interfaces, action and comment and restricts the state exactly if the entry does |
| FirewallFields.TenantSuffixIff | clabgen/s88/CM/policy_firewall.py:8-33 | between tenants every port must convert, and the protocol keeps its lower-cased name |
| PolicyFirewall.FamilyPrefixes | clabgen/s88/CM/cpm_firewall_rules.py:8-33 | the prefixes an entry declares for the family, undeclared ones included |
| PolicyFirewall.CpmRulesMeaning | clabgen/s88/CM/cpm_firewall_rules.py:277-353 | the expanded rules hit exactly the packets the rule concerns in some family, and there are any exactly when some family can express it |
| PolicyFirewall.DestinationGate | clabgen/s88/CM/cpm_firewall_rules.py:317-326 | of the rules between interfaces, one with declared destinations never hits a packet outside them |
| PolicyFirewall.DestinationGateIff | clabgen/s88/CM/policy_firewall.py:129-170 | of all rules rendered for an entry with declared destinations none hits a packet outside them, if and only if the entry has a form between interfaces, or none between tenants, or declares every address |
| PolicyFirewall.ReturnRuleNeedsTrackedFlow | clabgen/s88/CM/cpm_firewall_rules.py:119-140 | between interfaces a return rule without the state restriction is an error, and a rendered one never hits a new flow |
| PolicyFirewall.ReturnGateIff | clabgen/s88/CM/policy_firewall.py:129-170 | a return rule never hits a new flow in any rendered form, if and only if it has a form between interfaces or none between tenants |
| PolicyFirewall.FamilyGateIff | clabgen/s88/CM/cpm_firewall_rules.py:287-336 | a rule of one family hits only packets of that family, if and only if it has source prefixes of the family or any destinations, or (without a form between interfaces) no form between tenants |
| PolicyFirewall.SourceGateExactly | clabgen/s88/CM/cpm_firewall_rules.py:309-315 | declared sources bind every packet the rendered rules can hit, if and only if in each family the rule reaches there is a source prefix of that family (or everything else it lets through is declared too); a rule between tenants binds none |
| PolicyFirewall.FallbackLosesGates | clabgen/s88/CM/policy_firewall.py:129-170 | a concrete return entry with a declared destination that renders only between tenants: its rules hit a new flow to an undeclared address |
| PolicyFirewall.FamilyFourHitsIpv6 | clabgen/s88/CM/cpm_firewall_rules.py:287-336 | a concrete entry of family 4, rendered between interfaces, whose rules hit an IPv6 packet |
| PolicyFirewall.NeighbourIsHit | clabgen/s88/CM/cpm_firewall_rules.py:309-315 | a concrete entry with one declared IPv4 source, rendered between interfaces, whose rules hit an IPv4 packet from another source |
| PolicyFirewall.Render | clabgen/s88/CM/policy_firewall.py:94-174 | the rule loop with its set of emitted rules yields the fixed rules followed by every expanded rule once |
| PolicyFirewall.AppendNew | clabgen/s88/CM/policy_firewall.py:133-138 | rules already emitted are skipped and the set stays the set of rules met |
| PolicyFirewall.RulesForMatches | clabgen/s88/CM/policy_firewall.py:141-170 | the rules between tenants, one per match, or the first unusable port list |
| PolicyFirewall.DedupKeepsVerdict | clabgen/s88/CM/policy_firewall.py:127-170 | dropping repeated rules leaves every packet its first hit |
| PolicyFirewall.RuleRulesMeaning | clabgen/s88/CM/policy_firewall.py:129-170 | the rules of one entry hit exactly the packets it concerns, all with its action; the tenant form is used exactly when no family can express the interface form |
| PolicyFirewall.RenderedChainMeansPolicy | clabgen/s88/CM/policy_firewall.py:118-172 | the chain under policy drop accepts exactly tracked packets and those, valid and off eth0, whose first concerning rule accepts them; what concerns a packet is read off an entry family by family |
| PolicyFirewall.TrackedRulesComeTooLate | clabgen/s88/CM/policy_firewall.py:121 | whatever a rule restricted to tracked flows hits was already accepted by the first rule of the chain |

## Left out

- ExecBundles.OrderedExecution: a generation (the start time of the container's first process) is taken to be new at every restart; what happens otherwise is `ExclusionNeedsFreshMarkers`. Failures of the scripts' own `echo` and `awk`, and a second copy of one bundle, are not modelled.
- OverlayPaths.Adjacency: the graph is a fresh value, not a shared mutable dictionary of sets.
- RouteVia.EffectiveViaIsOnLink: next hops and addresses arrive parsed; texts that do not parse, IPv6 zones and unusual spellings of the same address are not modelled.
- PolicyGroups.TargetRoutesPrevail: needs canonical destinations, because the source compares spellings; the general condition is `OnlyTargetHopsIff`.
- PolicyLanes.CollectLanes: lanes arrive merged from their backing references, uplinks as sets, and a runtime name carried by several logical interfaces resolves to the least name where the source takes dictionary order. The unused table slot is not modelled.
- ForwardingValidation.RenderingAcceptedIff: stated for injective interface maps, which `EthMaps` proves of the real ones, and for tables whose destinations are of the table's family, which `RoutesGiveFamilies` reads off the node; the validator's other checks, on comments, forward rules and access routes, are left out.
- CrossLanes.CrossRulesAreArgmax: stated for an ingress that belongs to a single lane and for keys that no Phase 3 lane serves; claims of Phase 3 come first by `ClaimsAreExclusive`.
- PolicyRender.Render: the destinations of one table come in an order given as a parameter (the source sorts their text); Phase 5 is not modelled, because it renders connected hops as via None.
- PolicyLookup.ClaimedTrafficIsDecided: what the main table answers is a parameter, and of two rules of one priority the one rendered first decides; the kernel's own rules are left out.
- PolicyCapture.NotCapturedIff: Phases 1 to 4 only. Phase 5 (clabgen/s88/CM/linux_policy_routes.py:951-1000) adds routes to upstream tables, which may then answer for more packets; on the node of `SmallerLaneCaptures` it adds none. Stated for injective interface maps, as `EthMaps` builds them.
- DenyByDefault.DenyByDefaultIff: Phases 1 to 4 only; a route that Phase 5 writes into an upstream table can fill one that an empty lane shares.
- StaticRoutes.RenderStaticRoutes: multipath is absent as in the code, whose authority check always refuses; runtime-delegated routes and the choice of default-route interfaces by name are left out, except for the peer arithmetic.
- DnsProxy.LocalAnswerDecodes: for one question and dot-free ASCII labels; with other labels the owner does not survive (`LocalAnswerDecodesIff`), and other question counts are not modelled. Address texts are read by a parameter, and lower-casing outside ASCII is not modelled. Name compression, which the proxy never writes, is not decoded.
- DnsProxy.LocalAnswer: upstream queries, sockets, threads, failure responses and the namespace fallback are left out; the last tests a text suffix, not a label boundary.
- Reservations.MaterializeRecords: JSON values are a datatype (a number with a fraction is one opaque case), pool and subnet arrive parsed, and address text is read and written by a parameter, so IPv6 zone identifiers are not modelled. Which rejected field is reported is not distinguished: the source has one error for all.
- Reservations.InsertReservations: the out-of-pool flag is the one computed for the new records, as in the source; template reservations do not enter it.
- ReservationDns.MaterializeDnsLines: group ownership, atomic file writing and the comparison of Kea and DNS handles in the entry point are left out.
- Reservations.MergesReserveOnceIff: for templates that leave an identity and an address unused; template texts that are no address or identity are not compared.
- Ipv6Materializer.AddressIsInvertible: the parent's text arrives parsed, with its canonical spelling checked as a flag of the source.
- EthMaps.BuildEthMaps: the digest of long names is a parameter; sites whose entries have the wrong JSON type are not modelled.
- PolicyFirewall.RulesForCpmRule: rules with a protected runtime destination address, which expand at run time in a shell script, are left out; so is the quoting of rule text. Two rules count as equal when their parts are equal.
- PolicyFirewall.RenderedChainMeansPolicy: how nft reads a protocol part is a parameter, so a part nft would refuse is one that no packet meets; commands other than rules are not in the chain.
- Shell, nft, FRR, Unbound, Kea and PPPoE text: the meaning of the text lies in external programs.
- DNS authority, lab emulation, access advertisements, PPPoE runtime, site validation and canonical bundles: chains of field checks that would add only easy members.
- Model building, provenance, hashes, YAML and JSON output, deployment scripts and container files: plumbing and process control.
