# DES-OLSR: a verified model of the routing database

DES-OLSR is a link-state routing daemon for wireless meshes, loosely following RFC 3626. Each node
learns its neighbours from HELLO messages and the rest of the network from TC messages, keeps what
it learned in tables whose entries expire, chooses multipoint relays among its neighbours, and
calculates a routing table. This project models one node's database with the steps that change it,
and the network of such nodes, and proves what the daemon's design relies on.

| file | models |
|---|---|
| `Weights.dfy`, `Paths.dfy`, `LinkCosts.dfy`, `RouteCalculation.dfy` | the metrics as one weight algebra, paths and correct routing tables, path weights in numbers, the Dijkstra variant over a sorted candidate list with duplicates |
| `Network.dfy`, `DeadLinks.dfy`, `Convergence.dfy` | hop-by-hop forwarding over independently calculated tables; what links of quality 0 cost; from TC messages to delivery |
| `MprSpec.dfy`, `MprSelection.dfy` | greedy relay selection as a function, and over the live tables |
| `Queues.dfy`, `Timeslot.dfy` | expiry queues as a function of their operations, and as the linked list with its hash |
| `TwoHop.dfy`, `NeighborSet.dfy`, `TopologySet.dfy` | the two-way 2-hop index, the neighbour set and the topology set, with purges that cascade |
| `SeqNumbers.dfy`, `WindowSpec.dfy`, `SlidingWindow.dfy` | the circular comparator, windows of sequence numbers as lists and as linked lists |
| `RlSeq.dfy`, `RlRuns.dfy` | numbering and duplicate detection, of one pair and of the whole table over runs with times |
| `TimeCode.dfy`, `Timeval.dfy` | the one-byte interval code and time arithmetic |
| `Hello.dfy`, `HelloLaws.dfy`, `Node.dfy` | HELLO and TC handling, what codes and qualities do, the routing table rebuild, forwarding lookup, whole runs |
| `Silence.dfy` | how long a node remembers a neighbour or an originator that has fallen silent |
| `LapsedSender.dfy`, `ReachableTables.dfy` | a HELLO's sender whose hold time has run out; runs that lead to the tables on which promises fail |
| `Basics.dfy` | addresses, sequences with an element put in or taken out |

The clock, the quality a window measured on a link, and the message contents are inputs. A handler
is one atomic step and the clock stands still during it. `float` is an exact real, the list sort of
utlist is a stable sort, and memory allocation succeeds. Hash tables are walked in an arbitrary order,
so what is proved holds for the insertion order the daemon uses. Deadlines are microsecond totals.
In a network the tables, links and best links of all nodes are those of one moment. For
PLR and ETX link qualities are percentages, 0 to 100, as their senders compute them; the daemon does
not check the wire value.

## Where the code departs from what it promises

These were found by proof; the code is modelled as it is.

- For PLR and ETX a route of quality 0 need not have minimal hops, and packets that follow it can run
  in a circle. By the recorded quality alone, both minimal hops and delivery are guaranteed exactly if
  it is positive, whatever dead links there are elsewhere (`DeadLinks.HopsArePromised`,
  `DeadLinks.DeliveryIsPromised`, with the graphs that fail in `DeadLinks.DetourIsTaken`,
  `DeadLinks.PacketLoops` and `DeadLinks.PacketGoesOn`). A route of quality 0 has minimal hops exactly if
  some shortest path leaves the live part of the network no later than that part is recorded
  (`DeadLinks.BestRoutesAre`).
- Hop count and ETX sum route over neighbours of quality 0, and such a neighbour may have no best link:
  then packets for it are dropped. A packet arrives exactly if every node on the way has a best link to
  its next hop; for PLR and ETX they all have along a route of positive quality (`Network.Delivered`,
  with the net that fails in `DeadLinks.FaintNeighborDrops` and the HELLOs that lead there in
  `ReachableTables.FaintNeighborIsReachable`).
- Only the neighbours' queue is purged before relays are chosen, so the rounds start with 2-hop
  neighbours whose records have expired. One that nobody reaches any more is never struck out, and all
  listed neighbours become relays (`MprSelection.ExpiredRecordMakesAllRelays`, after three HELLOs in
  `ReachableTables.ExpiredRecordCostsRelays`).
- Packet numbers are issued and recorded without a purge first. A pair's entry that has expired
  unnoticed goes on numbering where it stood instead of at 0; its window is that of a new entry exactly
  if the number recorded is a window or more ahead, or the only one there (`RlRuns.ExpiredPairMatters`,
  at two issues in `RlRuns.NumberingGoesOn`).
- A neighbour outlives the configured number of silent HELLO intervals, at every interval from j/64 s
  to 8192 s, exactly when that number is at most j, for j from 1 to 8; so one from 1/64 s on and
  eight from 1/8 s on. From 1/64 s on the HELLO that ends such a silence never comes before the
  deadline (`TimeCode.HoldOutlastsMissedHellos`, for a node in `Silence.AskBetweenHellos`).
- An originator's links outlive a number of silent TC intervals, at every interval from j/64 s to
  8192 s, exactly when that number times j + 1 is at most j times the configured one; so never the
  configured number itself (`Silence.HeldThroughout`, for a node in `Silence.AskBetweenTcs`).
- A TC that is stale against an entry that has expired but was not purged yet revives that entry
  instead of being taken (`Topology.LapsedEntryMatters`, at two TCs in `Topology.LapsedEntryRevives`).
- A HELLO from a sender whose hold time has run out unnoticed acts as if it had not, exactly unless
  the sender's old best link is superseded and each of its 2-hop records that has not expired itself is
  rewritten (`LapsedSender.LapsedSenderMatters`, at HELLOs in `LapsedSender.LeftoversAreReachable`).
- The quality of a two-hop path is kept in a byte and is right exactly while the product of the two
  wire values is below 25600 (`MprSpec.PathQualityIsExact`), which percentages never reach.
- A window of size one can hold two numbers and report 200 percent; larger windows never hold more
  numbers than their size (`WindowSpec.NeverOverflows`).
- A number that is a window or more behind is never recorded, so its repetition passes the duplicate
  check (`RlSeq.RepeatIsKnown`, at 10 after 100 in `RlSeq.OldNumberKeepsPassing`).
- Two sequence numbers 32767, 32768 or 32769 apart each count as older than the other
  (`SeqNumbers.CompAntisymmetry`), and two steps ahead are a step ahead exactly if they sum to less than
  half the circle (`SeqNumbers.CompIsTransitiveWithinHalf`).

## Model

| member | source | states |
|---|---|---|
| `Weights.LeqIsTotalPreorder` | src/database/routing_calculation/route_calculation.c:200-242 | each selection order is a total preorder, with mixed strict transitivity |
| `Weights.ExtendKeepsOrder` | src/database/routing_calculation/route_calculation.c:303-308 | extending two routes by the same link keeps their order, for every metric, exactly unless hops break ties, the link is dead and the better route is the longer one |
| `Weights.ExtendNeverImproves` | src/database/routing_calculation/route_calculation.c:303-308 | no link makes a route better, for every metric |
| `Weights.DeadLinkBreaksTieBreak` | src/database/routing_calculation/route_calculation.c:200-218 | over a link of quality 0 the better of two PLR or ETX routes stays better exactly if it is not the longer one |
| `LinkCosts.LabelInNumbers` | src/database/routing_calculation/route_calculation.c:243-316 | the label of a path is its length and, for ETX-ADD, the sum over its links of 100 divided by the quality, or 100 where that is 0; for the other metrics 100 times the product of quality / 100 over its links |
| `LinkCosts.PerfectLinks` | src/database/routing_calculation/route_calculation.c:243-251 | n links of quality 100 cost n and let everything through |
| `LinkCosts.BetterLinkIsBetter` | src/database/routing_calculation/route_calculation.c:303-316 | raising the quality of any link of a path never makes the path worse in an order its metric serves; it makes it better for ETX-ADD exactly if the new quality is at least 2, for PLR and ETX exactly if all other links are alive, for hop count never |
| `LinkCosts.CorrectIsBest` | src/database/routing_calculation/route_calculation.c:253-343 | in these numbers, each entry of a correct table is that of a path (its first node, its length in a byte, its sum or product) that no other path to the destination beats |
| `LinkCosts.BetterNetHasBetterRoutes` | src/database/routing_calculation/route_calculation.c:253-343 | when links are heard better or new ones appear, the recalculated table still has every destination, by a route at least as good in every order the metric serves (where hops break ties, for routes of positive quality) |
| `Paths.TreePathRealises` | src/database/routing_calculation/route_calculation.c:282-293 | following precursors from a destination reaches this node in exactly the recorded hops over real links whose qualities compose to the recorded one; the next hop is the first node on the way and a neighbour |
| `Paths.TreePathDepths` | src/database/routing_calculation/route_calculation.c:282-293 | the nodes on the way are routed themselves, at strictly increasing depth |
| `Paths.KeysAreReachable` | src/database/routing_calculation/route_calculation.c:298-320 | the keys of a correct table are exactly the addresses some path reaches |
| `Paths.RankedRouteIsOptimal` | src/database/routing_calculation/route_calculation.c:253-343 | a route is optimal over all paths; for quality with hop tie-break if it has positive quality, whatever dead links there are |
| `Paths.LiveRouteHasLivePath` | src/database/routing_calculation/route_calculation.c:253-343 | the routes of positive quality are those to the addresses that live links lead to |
| `RouteCalculation.SortIsStable` | src/database/routing_calculation/route_calculation.c:278-286 | the list sort sorts by the metric's comparator, permutes, and keeps the order of ties |
| `RouteCalculation.SortedHeadIsBest` | src/database/routing_calculation/route_calculation.c:278-288 | after sorting, the head is a pending candidate no other compares below, and no candidate is lost |
| `RouteCalculation.CompareDecides` | src/database/routing_calculation/route_calculation.c:200-242 | a comparator on stored hop bytes decides every order its metric serves, while the true hop counts fit the byte |
| `RouteCalculation.BestBoundsPaths` | src/database/routing_calculation/route_calculation.c:277-342 | the best pending candidate is at least as good as every path to any host without a route; where hops break ties, every path of positive quality |
| `RouteCalculation.RoundKeepsInv` | src/database/routing_calculation/route_calculation.c:288-342 | settling the best candidate, expanding it and sweeping its address keeps tree, candidate completeness, optimality and that no link improves a settled route, and routes one address more of a finite set |
| `RouteCalculation.DoneIsCorrect` | src/database/routing_calculation/route_calculation.c:277-342 | without pending candidates every address a path reaches is routed, hop bytes are exact up to 256 nodes, every route is optimal, and no link, dead or alive, improves a route |
| `RouteCalculation.RoutingTable.Destroy` | src/database/routing_table/routing_table.c:42-48 | the table is empty |
| `RouteCalculation.RoutingTable.AddRoute` | src/database/routing_table/routing_table.c:65-86 | the route of the destination is inserted or overwritten, the others stay |
| `RouteCalculation.RoutingTable.GetNextHop` | src/database/routing_table/routing_table.c:88-98 | the recorded next hop, or that there is none |
| `RouteCalculation.RouteCalculator.InitCandidates` | src/database/routing_calculation/route_calculation.c:253-275 | one one-hop candidate per neighbour, with its link quality or ETX cost |
| `RouteCalculation.RouteCalculator.Expand` | src/database/routing_calculation/route_calculation.c:295-320 | one candidate more per advertised link to another host without a route, the rest of the list untouched |
| `RouteCalculation.RouteCalculator.SweepCandidates` | src/database/routing_calculation/route_calculation.c:322-341 | exactly the candidates for the settled address are gone, duplicates included |
| `RouteCalculation.RouteCalculator.Dijkstra` | src/database/routing_calculation/route_calculation.c:253-343 | it terminates from an empty table, and leaves a tree of real links over exactly the reachable addresses, optimal over all paths: in numbers, the largest product of quality / 100 (and, for routes of positive quality, the fewest hops among those), the fewest hops, or the smallest sum of 100 / quality, with the first node of such a path as next hop |
| `RouteCalculation.RouteCalculator.Rebuild` | src/pipeline/olsr_periodic.c:260-265 | the same from any table |
| `RouteCalculation.CorrectTableExists` | src/database/routing_calculation/route_calculation.c:253-343 | every graph has a correct table, by running the rounds |
| `Network.PrependWorsens` | src/database/routing_calculation/route_calculation.c:303-308 | a link put in front of a path adds a hop, never raises its product and strictly raises its ETX sum |
| `Network.NextHopImproves` | src/pipeline/olsr_pipeline.c:405-426 | the next hop of a route is another node and a neighbour, and is the destination or has a strictly better route to it itself; for PLR and ETX this takes a route of positive quality, and the next one has positive quality again |
| `Network.Delivered` | src/pipeline/olsr_pipeline.c:405-426 | with tables built by one metric from one link graph of at most 256 nodes and, for PLR and ETX, qualities of at most 100, the next hops along a route (of positive quality for PLR and ETX) lead to the destination and to no node twice; a packet gets there exactly if every node on that course has a best link to its next hop, as all have for PLR and ETX if neighbours of positive quality have one, and for every metric if all neighbours have one |
| `Network.LiveRouteHasExit` | src/database/neighbor_set/neighbor_set.c:170-185 | a route of positive quality for PLR and ETX leaves over a neighbour that has a best link, if all neighbours of positive quality have one |
| `DeadLinks.DetourIsTaken` | src/database/routing_calculation/route_calculation.c:253-343 | in a graph of five nodes every correct PLR or ETX table records four hops behind a dead link that a path of the same quality reaches in two |
| `DeadLinks.HopsArePromised` | src/database/routing_calculation/route_calculation.c:253-343 | by the recorded quality alone, minimal hops among the best paths are guaranteed exactly if it is positive |
| `DeadLinks.BestRoutesAre` | src/database/routing_calculation/route_calculation.c:253-343 | route by route: a PLR or ETX route has minimal hops among the best paths exactly if it has positive quality, or there is a shortest path whose last node with a live route is recorded no deeper than its place on that path |
| `DeadLinks.PacketLoops` | src/pipeline/olsr_pipeline.c:405-426 | in a net of eleven nodes, whatever correct PLR or ETX tables they have, the next hops for a host behind dead links lead to and fro between two nodes |
| `DeadLinks.PacketGoesOn` | src/pipeline/olsr_pipeline.c:405-426 | where each node of that net has a best link to each of its neighbours, which links of quality 0 included, a packet goes to and fro for ever |
| `DeadLinks.DeliveryIsPromised` | src/pipeline/olsr_pipeline.c:405-426 | for PLR and ETX, by the recorded quality alone, delivery is guaranteed exactly if it is positive; that all neighbours have best links does not change this |
| `DeadLinks.FaintNeighborDrops` | src/pipeline/olsr_pipeline.c:413-426 | between two neighbours of quality 0 without a best link the next hop is the destination, for hop count and ETX sum by a route that counts as live, and no packet arrives |
| `ReachableTables.FaintNeighborIsReachable` | src/pipeline/olsr_pipeline.c:148-166 | for every metric, a first HELLO that lists this node at quality 0 leaves its sender a neighbour of quality 0 without a best link |
| `ReachableTables.FadingNeighborIsReachable` | src/pipeline/olsr_pipeline.c:148-166 | for every metric, a neighbour heard at quality 80 and then at quality 0 keeps its best link, as the net in which packets loop needs |
| `MprSpec.BestIsMaximal` | src/database/routing_calculation/route_calculation.c:136-152 | the candidate of a round has the largest coefficient, and is the first such one |
| `MprSpec.CoefficientIsWeight` | src/database/routing_calculation/route_calculation.c:96-120 | the coefficient is the willingness times the sum over the links of three times the quality where the far end is unreached, else once |
| `MprSpec.StrikingOut` | src/database/routing_calculation/route_calculation.c:96-120 | striking out a listed unreached 2-hop neighbour lowers the coefficient by exactly twice the willingness times its quality, any other changes nothing; with nobody unreached it is the willingness times the plain sum |
| `MprSpec.EachPickIsGreedy` | src/database/routing_calculation/route_calculation.c:133-157 | in every round somebody is unreached, what is unreached is what the picks so far leave, and no remaining candidate has more willingness times link weight than the pick, unreached far ends counting threefold |
| `MprSpec.PicksAreCandidates` | src/database/routing_calculation/route_calculation.c:133-157 | there are at most as many rounds as candidates, and nobody is picked twice |
| `MprSpec.Dichotomy` | src/database/routing_calculation/route_calculation.c:133-157 | the rounds end with every 2-hop neighbour reached at the threshold, or with every candidate picked |
| `MprSpec.WhichWayItEnds` | src/database/routing_calculation/route_calculation.c:133-157 | nobody is left unreached exactly if each 2-hop neighbour is reached at the threshold by some candidate; if one is not, every candidate is picked |
| `MprSpec.RelaysCover` | src/database/routing_calculation/route_calculation.c:69-168 | whoever a candidate reaches at the threshold, a relay reaches at the threshold |
| `MprSpec.RelaysAreCandidates` | src/database/routing_calculation/route_calculation.c:159-165 | relays are candidates, and every candidate of willingness at least 7 is one |
| `MprSpec.PathQualityIsExact` | src/database/routing_calculation/route_calculation.c:76-82 | the byte holds the rounded product of the two link qualities exactly if the product of the wire values is below 25600, as it is for percentages |
| `MprSpec.PathQualityWraps` | src/database/routing_calculation/route_calculation.c:76-82 | two wire values of 160 come out as 0 instead of 256 |
| `MprSelection.GetCandidates` | src/database/routing_calculation/route_calculation.c:43-67 | one candidate per 1-hop neighbour of the index, with the willingness and link quality of its tuple; the tables stay as they are while nothing is due |
| `MprSelection.SetWillingKoeff` | src/database/routing_calculation/route_calculation.c:96-120 | the result is willingness times the sum over unexpired links of three times the quality where the far end is unreached, else once |
| `MprSelection.SelectAsMpr` | src/database/routing_calculation/route_calculation.c:69-94 | exactly the chosen neighbour is marked in addition, and exactly the 2-hop neighbours it reaches at the threshold are struck out |
| `MprSelection.RunRounds` | src/database/routing_calculation/route_calculation.c:133-157 | the loop marks exactly the greedy picks and leaves the other candidates over |
| `MprSelection.ChooseMprSet` | src/database/routing_calculation/route_calculation.c:122-168 | the due neighbours go first, with their records; then the relays are the greedy picks by the unexpired links, from all listed 2-hop neighbours on, those included whose records have expired, plus the always-willing candidates; nothing else of any tuple changes |
| `MprSelection.SelectionCovers` | src/database/routing_calculation/route_calculation.c:122-168 | in the tables left behind, whoever a neighbour reaches with floor(q1*q2/100) mod 256 at least 75 is so reached by a marked relay |
| `MprSelection.SelectionOutcome` | src/database/routing_calculation/route_calculation.c:122-168 | only listed neighbours are relays, and always-willing ones all are; if every listed 2-hop neighbour is reached at the threshold over unexpired links, each is so reached by a relay, and if one is not, all listed neighbours are relays |
| `MprSelection.RelaysAreExactly` | src/database/routing_calculation/route_calculation.c:122-168 | a neighbour is a relay exactly if it was picked in a round or is listed with willingness at least 7, and nothing else of its tuple changes |
| `MprSelection.ExpiredRecordMakesAllRelays` | src/database/routing_calculation/route_calculation.c:122-157 | a listed 2-hop neighbour all of whose records have expired makes all listed neighbours relays |
| `ReachableTables.ExpiredRecordCostsRelays` | src/pipeline/olsr_pipeline.c:182-200 | three HELLOs after which every choice of relays takes both neighbours, because of a record that has expired, while every choice from the tables purged of what has expired takes one |
| `Queues.QueueIsMap` | src/database/timeslot.c:81-212 | an expiry queue is a map from objects to deadlines: adding updates it, deleting removes, a purge forgets the deadlines at or before now |
| `Queues.PurgeSplits` | src/database/timeslot.c:81-117 | a purge takes exactly the objects due, in non-decreasing order of deadline, and leaves the rest in order |
| `Queues.InsertKeepsArrivals` | src/database/timeslot.c:119-180 | a new element goes behind exactly those due no later, so equal deadlines keep the order of arrival |
| `Queues.AddAndPurgeThenPurge` | src/database/timeslot.c:119-180 | whether the queue was empty, in which case adding skips its purge, is not seen by the next purge, nor at all for future deadlines |
| `Queues.LazyIsPlain` | src/database/timeslot.c:81-212 | over every run and at every time no earlier than its purges, the queue answers as the plain map of latest deadlines that ignores those that have passed |
| `Timeslot.Timeslot.AddObject` | src/database/timeslot.c:119-180 | the linked list, its hash and its size hold the object once, at its place by deadline, wherever it was before; whatever is due is taken out and reported in order, unless the queue was empty |
| `Timeslot.Timeslot.DeleteObject` | src/database/timeslot.c:182-212 | exactly the element of that object is unlinked, and it is reported whether there was one |
| `Timeslot.Timeslot.PurgeObjects` | src/database/timeslot.c:81-117 | exactly the objects due leave the list, reported in non-decreasing order of deadline |
| `TwoHop.TwoHopSet.Purge2hNeighbor` | src/database/2hop_neighbor_set/2hop_neighbor_set.c:46-73 | the unguarded reverse lookup finds its record; the pair disappears from both directions and nothing else does |
| `TwoHop.TwoHopSet.PurgeTimeslot` | src/database/timeslot.c:81-117 | purging a neighbour's queue stays well-behaved when the callback destroys that very queue: the records due are gone from both directions, the entry with them if none is left |
| `TwoHop.TwoHopSet.Add2hNeighbor` | src/database/2hop_neighbor_set/2hop_neighbor_set.c:119-171 | one record is written on both sides with its deadline, what is due of that neighbour is purged, and the directions agree |
| `TwoHop.TwoHopSet.Get2hNeighbors` | src/database/2hop_neighbor_set/2hop_neighbor_set.c:173-191 | the neighbour's unexpired records |
| `TwoHop.TwoHopSet.GetLinkQuality` | src/database/2hop_neighbor_set/2hop_neighbor_set.c:325-352 | the recorded quality, 0 if none or expired |
| `TwoHop.TwoHopSet.Clear1hn` | src/database/2hop_neighbor_set/2hop_neighbor_set.c:314-323 | exactly the neighbour's expired records are gone |
| `TwoHop.TwoHopSet.Del1hNeighbor` | src/database/2hop_neighbor_set/2hop_neighbor_set.c:232-269 | exactly the neighbour's entry is gone, and the reverse direction agrees |
| `TwoHop.TwoHopSet.Del2hNeighbor` | src/database/2hop_neighbor_set/2hop_neighbor_set.c:271-309 | the address is listed nowhere any more, entries left empty are gone with their queues, and everything else stays |
| `TwoHop.RecordsAreListed` | src/database/2hop_neighbor_set/2hop_neighbor_set.c:26-40 | a neighbour's queue holds exactly its records |
| `TwoHop.PurgeForgetsDue` | src/database/2hop_neighbor_set/2hop_neighbor_set.c:46-73 | record by record, a purge forgets exactly the neighbour's records that are due |
| `TwoHop.AddWritesRecord` | src/database/2hop_neighbor_set/2hop_neighbor_set.c:119-171 | record by record, an addition writes one and forgets the neighbour's records that are due |
| `TwoHop.Del2Forgets` | src/database/2hop_neighbor_set/2hop_neighbor_set.c:271-309 | record by record, a deletion forgets the records of that 2-hop neighbour and no others |
| `TwoHop.DirectionsDetermineEachOther` | src/database/2hop_neighbor_set/2hop_neighbor_set.c:26-40 | agreement with no empty entries leaves no freedom: the forward index determines the reverse one |
| `TwoHop.LiveLinksStay` | src/database/2hop_neighbor_set/2hop_neighbor_set.c:173-191 | purges on the way change nobody's unexpired links |
| `Neighbors.NeighborSet.PurgeTuple` | src/database/neighbor_set/neighbor_set.c:36-42 | an expired neighbour goes with everything it reaches |
| `Neighbors.NeighborSet.PurgeTimeslot` | src/database/timeslot.c:81-117 | exactly the neighbours due go, each with its entry of the 2-hop index |
| `Neighbors.NeighborSet.GcNeigh` | src/database/neighbor_set/neighbor_set.c:65-78 | the tuple exists afterwards, blank if it is new, untouched if it was there, even lapsed |
| `Neighbors.NeighborSet.UpdateTimeslot` | src/database/neighbor_set/neighbor_set.c:80-82 | the neighbour's deadline is the new one, and every other neighbour due is gone with its 2-hop entry |
| `Neighbors.NeighborSet.IsNeigh` | src/database/neighbor_set/neighbor_set.c:100-111 | true exactly for a neighbour whose latest hold time has not run out |
| `Neighbors.NeighborSet.GetNeigh` | src/database/neighbor_set/neighbor_set.c:84-98 | the unexpired tuple, if there is one |
| `Neighbors.NeighborSet.IsMprSelector` | src/database/neighbor_set/neighbor_set.c:113-124 | true exactly for an unexpired neighbour that chose this node |
| `Neighbors.NeighborSet.GetLinkQuality` | src/database/neighbor_set/neighbor_set.c:155-165 | the best link's quality of an unexpired neighbour, else 0 |
| `Neighbors.NeighborSet.SetMprStatus` | src/database/neighbor_set/neighbor_set.c:126-138 | of the unexpired tuples exactly this one's relay mark is set |
| `Neighbors.NeighborSet.RemoveAllMprs` | src/database/neighbor_set/neighbor_set.c:140-148 | no unexpired neighbour is a relay; nothing else of a tuple changes |
| `Topology.LastEntryWins` | src/pipeline/olsr_pipeline.c:249-253 | the adjacency of a list has an address exactly when an entry has it, with the quality of the last such entry |
| `Topology.TopologySet.UpdateSeqNum` | src/database/topology_set/topology_set.c:150-174 | accepted exactly if the originator is new or the number is ahead in circular order; the deadline is renewed either way, the number taken only if accepted |
| `Topology.TopologySet.RemoveTc` | src/database/topology_set/topology_set.c:130-148 | exactly the originator is gone, with its queue element |
| `Topology.TopologySet.RemoveNeighbors` | src/database/topology_set/topology_set.c:114-128 | exactly the originator's adjacency is emptied |
| `Topology.TopologySet.SetTuple` | src/database/topology_set/topology_set.c:82-112 | exactly one link of the originator is written, its deadline renewed, and lapsed originators are gone |
| `Topology.TopologySet.HandleTc` | src/pipeline/olsr_pipeline.c:228-254 | the whole set after a TC: the accepted list replaces the originator's adjacency, an empty one drops the originator, a stale TC renews the deadline only |
| `Topology.TopologySet.GetNeighbors` | src/database/topology_set/topology_set.c:176-186 | an originator's links, none if its deadline has passed |
| `Topology.LapsedEntryMatters` | src/database/topology_set/topology_set.c:150-174 | lazy and eager expiry end in the same set exactly unless the TC is stale against a lapsed unpurged entry (a verbatim repetition aside) |
| `Topology.LapsedEntryRevives` | src/database/topology_set/topology_set.c:150-174 | a run of two TCs after which an expired list is back, though the same run with a purge between them ends with the recent list |
| `Topology.EntryIsLastAccepted` | src/database/topology_set/topology_set.c:82-174 | over every run, an originator's entry is exactly the list and number of the last TC accepted from it |
| `Topology.LazyDeadlinesArePlain` | src/database/topology_set/topology_set.c:82-186 | over every run of TCs and queries the deadlines are those of the plain map of latest deadlines that ignores what has passed; an accepted empty TC removes |
| `Topology.QueryAnswersLastAccepted` | src/database/topology_set/topology_set.c:176-186 | over every run a query answers with the list of the last TC accepted from the originator while its latest deadline has not passed, else with nothing |
| `Topology.AcceptedAdvances` | src/database/topology_set/topology_set.c:150-174 | while an entry lives, each accepted number is 1 to 32769 ahead of the one accepted before |
| `SeqNumbers.CompLifts` | src/helper.c:27-39 | the comparator is the sign of the unbounded difference from -32769 to 32766 and, within one turn, nowhere else |
| `SeqNumbers.BehindIsAhead` | src/helper.c:27-39 | a number is judged behind exactly when it trails by 1 to 32769 around the circle |
| `SeqNumbers.CompAntisymmetry` | src/helper.c:27-39 | antisymmetric exactly outside the differences 32767, 32768 and 32769, where both directions say behind |
| `SeqNumbers.CompIsOrderOnSpan` | src/helper.c:27-39 | a total order on numbers spanning at most 32766 |
| `SeqNumbers.CompIsTransitiveWithinHalf` | src/helper.c:27-39 | two steps ahead in a row are a step ahead exactly if together they make at most 32766 |
| `SeqNumbers.CompIsNotTransitive` | src/helper.c:27-39 | a triple of numbers for which they make more |
| `WindowSpec.AddKeepsWindow` | src/database/link_set/sliding_window.c:99-172 | offering a number within range turns the window over what was received into the window over that and the number |
| `WindowSpec.RunIsWindow` | src/database/link_set/sliding_window.c:99-172 | over every in-range run, for sizes 2 to 255, the list holds in increasing order exactly the received numbers within one window of the largest, reduced to 16 bits |
| `WindowSpec.EveryRunLifts` | src/database/link_set/sliding_window.c:99-172 | whatever 16-bit numbers arrive, they are the wire forms of an in-range run, so the window reading never breaks down and at most the window size is held |
| `WindowSpec.LiftIsUnique` | src/database/link_set/sliding_window.c:99-172 | a 16-bit number has exactly one in-range reading |
| `WindowSpec.QualityIsDeliveryRatio` | src/database/link_set/sliding_window.c:174-176 | the reported quality is floor(100 * received / size) over the last window, at most 100 |
| `WindowSpec.TooNewIsIgnored` | src/database/link_set/sliding_window.c:99-110 | the range is tight: one number further ahead is taken for an old one |
| `WindowSpec.TooOldEvicts` | src/database/link_set/sliding_window.c:74-97 | the range is tight: one number further back evicts the window |
| `WindowSpec.SizeOneOverflows` | src/database/link_set/sliding_window.c:99-176 | a window of size one can hold two numbers and report 200 percent |
| `WindowSpec.NeverOverflows` | src/database/link_set/sliding_window.c:99-172 | a window never holds more numbers than its size, whatever arrives, exactly for sizes above one |
| `SlidingWindow.Window.AddSn` | src/database/link_set/sliding_window.c:99-172 | the linked list after an addition is well formed and holds what the list form of the algorithm says |
| `SlidingWindow.Window.DropSn` | src/database/link_set/sliding_window.c:74-97 | the linked list loses from its tail exactly the numbers a window or more behind |
| `SlidingWindow.Window.Insert` | src/database/rl_seq_t/sw.c:100-172 | a number is linked in once at its place, then the window moves up |
| `SlidingWindow.Window.GetQuality` | src/database/link_set/sliding_window.c:174-176 | the quality of what the list holds |
| `RlSeq.RlTable.GetNextSeq` | src/database/rl_seq_t/rl_seq.c:71-109 | a pair's first number is 0, every other one more than the head modulo 2^16, and it becomes the head, whether or not the entry had expired; the pair's history gains an issue, its hold time restarts, and other pairs stay as they are unless due |
| `RlSeq.RlTable.AddSeq` | src/database/rl_seq_t/rl_seq.c:136-161 | the number is offered to the pair's window, whether or not the entry had expired, and the window is never empty afterwards; the pair's history gains the recording, its hold time restarts, and other pairs stay as they are unless due |
| `RlSeq.RlTable.CheckSeq` | src/database/rl_seq_t/rl_seq.c:111-134 | exactly what is due goes; true exactly if, since the pair's unexpired entry was made, a number of that wire form was issued or recorded that the head is less than a whole window past; equivalently, if the number is in the unexpired window |
| `RlSeq.RlTable.PassOn` | src/pipeline/olsr_pipeline.c:341-358 | a packet passes exactly if its number is not known to the pair's unexpired entry; if it passes the number is recorded and the hold time restarts, if not only what is due goes |
| `RlSeq.StaysInUse` | src/database/rl_seq_t/rl_seq.c:71-161 | for sizes 2 to 255 a window stays non-empty and meaningful whatever is recorded |
| `RlSeq.NextBecomesHead` | src/database/rl_seq_t/rl_seq.c:90-91 | the number after the largest always becomes the largest |
| `RlSeq.KnownIsInWindow` | src/database/rl_seq_t/rl_seq.c:123-133 | a window has a wire number exactly if a number of that form, less than a window behind the largest, was received |
| `RlSeq.RepeatIsKnown` | src/database/rl_seq_t/rl_seq.c:111-161 | a second copy right behind the first is recognised exactly when the number is less than a window behind the head |
| `RlSeq.OldNumberKeepsPassing` | src/database/rl_seq_t/rl_seq.c:111-161 | with the default window size, 10 recorded after 100 leaves the window as it was |
| `RlSeq.RunIsWindowOfAll` | src/database/rl_seq_t/rl_seq.c:71-161 | along any interleaving of issues and recordings the window is the window over exactly the numbers issued and recorded, read as unbounded numbers, and its head is the wire form of the largest |
| `RlSeq.KnownOverRun` | src/database/rl_seq_t/rl_seq.c:111-134 | at every moment of such a run a number is known exactly if one of its wire form was issued or recorded and the head is less than a whole window past it |
| `RlSeq.StaysKnown` | src/database/rl_seq_t/rl_seq.c:111-161 | a number issued or recorded stays known, through everything that follows, until the head has moved a whole window past it |
| `RlSeq.IssuesAdvance` | src/database/rl_seq_t/rl_seq.c:71-109 | that number never falls, and every issue raises it strictly |
| `RlRuns.TableHoldsLives` | src/database/rl_seq_t/rl_seq.c:71-161 | over every run of issues, recordings and queries with times, the table with its one queue holds for each pair that pair's own life: its uses extend and renew it, anything else ends it once it is due |
| `RlRuns.QueryIsPlain` | src/database/rl_seq_t/rl_seq.c:111-134 | after every run, a query says yes exactly if the pair's entry has not expired and the number is known to its life |
| `RlRuns.TableStaysKnown` | src/database/rl_seq_t/rl_seq.c:111-161 | after every run, a number issued or recorded for a pair is known, whatever happened for this and other pairs since, until the head has moved a whole window past it or the pair has gone unused for its hold time |
| `RlRuns.LastUseHolds` | src/database/rl_seq_t/rl_seq.c:100-161 | after every run, a pair last used at some time is known exactly until window_size seconds, window_size * 1000000 microseconds, later; until then a query says yes to the number recorded there while the head is less than a window past it, and from then on no to every number |
| `RlRuns.PassTwice` | src/pipeline/olsr_pipeline.c:341-358 | of a packet that passes, a later copy with the same number passes exactly from window_size seconds on, or if packets of the pair were counted and the number was a window or more behind the head |
| `RlRuns.UsedNumberIsSent` | src/database/rl_seq_t/rl_seq.c:71-161 | that number's wire form is the one handed out or recorded at that step |
| `RlRuns.RepeatIsDropped` | src/pipeline/olsr_pipeline.c:341-358 | a number just recorded is known, and a second copy dropped, exactly if it was known before, or the pair was new, or it is less than a window behind the head |
| `RlRuns.ExpiredEntryMatters` | src/database/rl_seq_t/rl_seq.c:71-161 | a window continued after its expiry never becomes that of a new entry by an issue, and by a recording exactly if that leaves the number alone: it is a window or more ahead of the head, or the only one there |
| `RlRuns.ExpiredPairMatters` | src/database/rl_seq_t/rl_seq.c:71-161 | using a pair whose entry has expired unnoticed continues its history, where a purged table starts a new one, and the windows agree exactly in those cases |
| `RlRuns.LivePairsSeeNothing` | src/database/rl_seq_t/rl_seq.c:71-161 | every other pair, and a pair that has not expired, is as if the table had been purged first |
| `RlRuns.NumberingGoesOn` | src/database/rl_seq_t/rl_seq.c:71-109 | a pair whose entry has just expired is issued 1, not 0 |
| `TimeCode.SparceTime` | src/helper.c:41-52 | for every interval above 0 and below 8192 s the halving loop ends, with the byte the bounds below speak of |
| `TimeCode.NormaliseSplits` | src/helper.c:41-52 | the halving loop keeps af * 2^b and ends with af below 16, and at least 8 if it halved |
| `TimeCode.ExponentFits` | src/helper.c:41-52 | below 8192 s the exponent fits its four bits |
| `TimeCode.CodeBound` | src/helper.c:41-59 | with p the decoded code of t: p > 0, t < 2p, p <= t exactly from 1/64 s on, and t < 9/8 p from 1/8 s on |
| `TimeCode.CodeIsMonotone` | src/helper.c:41-59 | a longer interval never decodes shorter |
| `TimeCode.RecodingIsStable` | src/helper.c:41-59 | coding a decoded interval gives the same byte |
| `TimeCode.HoldOutlastsIntervals` | src/pipeline/olsr_pipeline.c:71-78 | for j from 1 to 8, the hold time outlasts c true intervals at every interval from j/64 s to 8192 s exactly if c * (j + 1) is at most j * (max_missed_hello + 1) |
| `TimeCode.HoldOutlastsMissedHellos` | src/pipeline/olsr_pipeline.c:71-78 | so it outlasts the configured number of silent intervals exactly if that number is at most j: one from 1/64 s on, eight from 1/8 s on; and it is over, from 1/64 s on, when the HELLO that ends the silence comes |
| `TimeCode.CodeRatio` | src/helper.c:41-59 | from j/64 s on coding loses less than a unit of which it keeps at least j |
| `Timeval.CompareIsOnMicros` | src/helper.c:61-80 | on normalised times the comparison is that of the microsecond totals |
| `Timeval.AddTv` | src/helper.c:82-95 | the normalised sum, also when the result overwrites an operand |
| `Timeval.DiffTv` | src/helper.c:97-110 | the normalised difference, also when the result overwrites an operand |
| `Hello.ReadIfaces` | src/pipeline/olsr_pipeline.c:104-172 | the sender counts as symmetric exactly if it lists the receiving interface as not lost; if so its tuple is updated entry by entry, its hold time restarted, it is forgotten as a 2-hop neighbour and its expired records go; if not, nothing changes |
| `Hello.ReadNeighs` | src/pipeline/olsr_pipeline.c:182-196 | the sender is a relay selector exactly if it lists this node as its relay, and the sender's 2-hop records gain exactly the symmetric entries for strangers, the last entry for an address deciding its quality |
| `Hello.SkimNeighs` | src/pipeline/olsr_pipeline.c:182-196 | for a sender that does not hear this node the list only triggers a purge |
| `Hello.ApplyHello` | src/pipeline/olsr_pipeline.c:99-196 | the whole effect of a HELLO on neighbours, hold times and 2-hop records, before relays are chosen |
| `Hello.BestLinkHeard` | src/pipeline/olsr_pipeline.c:155-166 | the best link afterwards is this one, with the quality last listed, exactly if it was before or some matching entry beats it |
| `Hello.StaleLinkLingers` | src/pipeline/olsr_pipeline.c:148-166 | the tuple a symmetric HELLO leaves for a sender whose tuple lapsed unpurged is that of a stranger exactly when the old tuple has no best link or a matching entry beats it |
| `LapsedSender.LapsedSenderMatters` | src/pipeline/olsr_pipeline.c:99-196 | a HELLO handled on lazily expired tables leaves what it leaves on tables purged of everything expired, as far as that has not expired, exactly unless the sender had lapsed and its tuple would differ or one of its 2-hop records that has not expired is not rewritten |
| `LapsedSender.PurgedIsEager` | src/database/timeslot.c:81-117 | such purged tables exist and look the same |
| `LapsedSender.LeftoversAreReachable` | src/pipeline/olsr_pipeline.c:99-196 | two HELLOs that lead to a lapsed sender, after which one HELLO keeps an old 2-hop record and another the old best link |
| `Hello.HelloKeepsSane` | src/pipeline/olsr_pipeline.c:99-196 | no HELLO of another node makes an address both neighbour and 2-hop neighbour, or this node either, or lists 2-hop neighbours under a stranger, or leaves a neighbour of positive quality without a best link |
| `HelloLaws.LinkCodes` | src/pipeline/olsr_pipeline.c:104-172 | a HELLO whose list has an entry for the receiving interface, a local one, with low link code bits other than 3 makes its sender a neighbour until its hold time, no relay, with the announced willingness; without one nothing but expiry happens |
| `HelloLaws.NeighborCodes` | src/pipeline/olsr_pipeline.c:182-196 | the sender is a relay selector exactly if it lists this node with code 2; a stranger it lists with any code but 0 gets a 2-hop record of the quality last so listed and this HELLO's deadline, and otherwise what has not expired stays |
| `HelloLaws.BestLinkQuality` | src/pipeline/olsr_pipeline.c:115-166 | if the best link afterwards is the one the HELLO came over, its quality is, for ETX, the product of both directions in percent rounded down (for percentages never above either direction, the other one where one is 100, 0 exactly below 1 percent; on wire values right exactly below 25600), for PLR, hop count and ETX-ADD the value last listed |
| `HelloLaws.DirectionsCount` | src/pipeline/olsr_pipeline.c:115-120 | exchanging the measured and the listed percentage leaves the same quality under ETX |
| `HelloLaws.StrangerHeard` | src/pipeline/olsr_pipeline.c:115-166 | a stranger's only matching entry gives it a best link of that quality exactly if that is positive |
| `NodeDatabase.RunIsSane` | src/pipeline/olsr_pipeline.c:39-196 | at every moment of every run of HELLOs, relay choices and expiries no address is both neighbour and 2-hop neighbour, this node is neither, and 2-hop neighbours are known through current neighbours only |
| `NodeDatabase.LazyNeighborsArePlain` | src/database/neighbor_set/neighbor_set.c:80-111 | at every moment of every run of HELLOs, relay choices and expiries, who is a neighbour is what the plain map of latest deadlines, set by symmetric HELLOs, says with passed deadlines ignored |
| `NodeDatabase.Node.HandleHello` | src/pipeline/olsr_pipeline.c:54-210 | own messages change nothing; any other has its HELLO effect, schedules a rebuild, and when symmetric is followed by a relay choice that covers; the history gains exactly that |
| `NodeDatabase.Node.HandleTc` | src/pipeline/olsr_pipeline.c:212-279 | own messages change nothing; an accepted one schedules a rebuild and is relayed exactly if the previous hop is known, unexpired and chose this node; the history gains the TC, and an expiry if the previous hop was looked up |
| `NodeDatabase.Node.BuildRoutingTable` | src/pipeline/olsr_periodic.c:255-275 | nothing happens unless scheduled; then the table is a correct one for the unexpired links of both tables, those to neighbours with their tuples' qualities, and the history gains an expiry and, if there are neighbours, a query |
| `NodeDatabase.Node.Forward` | src/pipeline/olsr_pipeline.c:405-426 | the best link of the recorded next hop while that is a neighbour, else nothing; so there is one exactly if the next hop is among the neighbours with a best link |
| `NodeDatabase.Node.MakeTc` | src/pipeline/olsr_periodic.c:133-188 | every listed link is a neighbour with its tuple's quality, and all neighbours are listed if byte and message have room |
| `NodeDatabase.Node.AskNeighbor` | src/database/neighbor_set/neighbor_set.c:100-111 | over the whole life of a node, whatever else happened to it, an address is answered to be a neighbour exactly if the deadline set by the last symmetric HELLO from it has not passed |
| `NodeDatabase.Node.AskLinks` | src/database/topology_set/topology_set.c:176-186 | over the whole life of a node, whatever else happened to it, the links answered for an originator are those of the last TC accepted from it while its latest deadline has not passed, else none |
| `NodeDatabase.Node.Story` | src/pipeline/olsr_pipeline.c:54-279 | in a valid node the neighbour tables are the end of the run its history tells, and the topology set is what the history's TCs and queries make it |
| `NodeDatabase.Node.Neighborhood` | src/pipeline/olsr_pipeline.c:168-196 | in a valid node a listed 2-hop neighbour is neither a neighbour nor the node, and is listed under neighbours only |
| `NodeDatabase.Node.StillOptimal` | src/pipeline/olsr_pipeline.c:204-207 | while no rebuild is scheduled, the table routes to every address a path over the links now stored reaches, at least as well as that path (for quality with hop tie-break, if the route or the path has positive quality) |
| `NodeDatabase.Node.LiveRoutesForward` | src/database/neighbor_set/neighbor_set.c:170-185 | for PLR, ETX and hop count, a route whose product of qualities is positive has a link to leave by while its next hop is the neighbour it was; the ETX sum is positive on every route and does not give this |
| `NodeDatabase.RunNode` | src/pipeline/olsr_pipeline.c:54-279 | every run of messages, rebuilds, emissions and queries in the order of their times keeps the whole node's invariant; its history gains exactly the HELLOs and TCs received from others, in order, with their deadlines, and nothing later than the last event, so that queries can follow |
| `Silence.HoldIsMicros` | src/pipeline/olsr_pipeline.c:71-78 | the hold time of so many intervals of an interval byte is so many times 15625 microseconds times the high nibble plus one, doubled as often as the low nibble says |
| `Silence.MicrosIsProduct` | src/helper.c:54-59 | those microseconds are 15625 * times * (1 + high nibble) * 2 to the power of the low nibble |
| `Silence.HeldThroughout` | src/pipeline/olsr_pipeline.c:71-78 | for j from 1 to 8, what is held for n coded intervals is held throughout c true ones, at every interval from j/64 s to 8192 s, exactly if c * (j + 1) is at most j * n |
| `Silence.AskAfterHello` | src/pipeline/olsr_pipeline.c:71-78 | after a symmetric HELLO, whatever else happens to the node but another one from the same sender, the sender is answered to be a neighbour exactly until max_missed_hello + 1 announced intervals have passed |
| `Silence.AskBetweenHellos` | src/pipeline/olsr_pipeline.c:71-78 | said of the sender's true interval: it stays a neighbour through max_missed_hello silent intervals where that number is at most 8 and at most 64 times the interval in seconds, and never until the HELLO that ends the silence |
| `Silence.AskAfterTc` | src/pipeline/olsr_pipeline.c:224-254 | after an accepted non-empty TC, whatever else happens to the node but another one of the same originator, the links answered are those of the TC exactly until max_missed_tc announced intervals have passed, then none |
| `Silence.AskBetweenTcs` | src/pipeline/olsr_pipeline.c:224-254 | said of the originator's true interval: its links outlive c silent intervals from j/64 s on if c * (j + 1) is at most j * max_missed_tc, and never max_missed_tc of them |
| `Silence.RelayAfterHello` | src/pipeline/olsr_pipeline.c:256-267 | an accepted TC that comes in from the sender of a symmetric HELLO is relayed exactly if that HELLO listed this node with code 2 and its hold time has not passed |
| `NodeDatabase.ReselectionCovers` | src/pipeline/olsr_pipeline.c:198-200 | after a relay choice every good enough 2-hop path has a relay that is good enough |
| `NodeDatabase.OnlyFewerPaths` | src/pipeline/olsr_pipeline.c:204-207 | since an up-to-date rebuild paths can only have disappeared |
| `Convergence.TcTeaches` | src/pipeline/olsr_pipeline.c:228-254 | a node that accepts a complete TC stores exactly the sender's neighbour set, or nothing for a sender without neighbours, and has so learnt it until the deadline |
| `Convergence.EmitAndLearn` | src/pipeline/olsr_periodic.c:133-188 | a TC that one node emits and another accepts teaches it all the sender's neighbours with the qualities the sender has, while those are less than 256 and fit the message, until the hold time of the TC is over |
| `Convergence.LearntIsKnown` | src/pipeline/olsr_pipeline.c:228-254 | a node whose run last accepted a complete, unexpired TC from every other node holds exactly the links that all the others have |
| `Convergence.BuildAfterLearning` | src/pipeline/olsr_periodic.c:255-275 | a node whose own history has learnt every other node's links, and whose unexpired neighbours are its links, is after its scheduled rebuild one of the nodes of such a network, with a best link to each neighbour of positive quality |
| `Convergence.NetworkConverges` | src/pipeline/olsr_periodic.c:260-265 | when every node has done so and then built its table, every node has routed over the one common graph |
| `Convergence.SameTables` | src/database/routing_calculation/route_calculation.c:253-343 | which tables are correct depends on the links only, not on the order they are walked in |
| `Convergence.ConvergedNetworkDelivers` | src/pipeline/olsr_pipeline.c:405-426 | in such a network, with qualities of at most 100 for PLR and ETX, the next hops from every node with a route (for PLR and ETX one of positive quality) lead to the destination and to no node twice; packets arrive exactly if each node on the way has a best link to its next hop, as for PLR and ETX all have |
| `Convergence.LiveWalksDeliver` | src/pipeline/olsr_pipeline.c:405-426 | wherever live links lead from sender to destination the sender has such a route: for PLR and ETX packets arrive, for hop count and ETX sum exactly if each node on the course has a best link to its next hop |
| `Convergence.ConvergedNetworkRoutes` | src/database/routing_calculation/route_calculation.c:253-343 | in such a network a node has a route to whomever the links lead to |

## Left out

- Message construction and parsing, sending, TTL and fisheye choices, the command line, start-up, and
  the report functions: input, output and formatting.
- Locks and interleavings: handlers are atomic. `olsr_handle_tc` gives up its lock between the check of
  the sequence number and the update of the adjacency, so its properties hold for serialised handling.
- The ETT metric: its qualities run opposite to the others and pass through `calculate_etx` all the same.
- `Hello.ReadIfaces`: the link tuple of the link set, its times and its window. Which window a HELLO is
  counted in and when links expire is left out; the quality the window measured is an input.
- `Neighbors.NeighborSet`, `Topology.TopologySet`, `TwoHop.TwoHopSet`, `RlSeq.RlTable` keep their expiry
  queues and windows as values; `Timeslot.Timeslot` and `SlidingWindow.Window` prove that the linked
  structures behave as those values, but pointers shared between the tables are not modelled.
- `NodeDatabase.Node.BuildRoutingTable`: the topology set is copied before route calculation instead of being asked
  host by host during it; with the clock standing still that is the same.
- `Timeslot.Timeslot.AddObject` and the other purges of that class report what they purge, in order,
  instead of calling back; a callback that destroys the very queue being purged is proved in
  `TwoHop.TwoHopSet.PurgeTimeslot`, on queue values.
- `Timeslot.Timeslot.PurgeObjects`: the same.
- `TimeCode.SparceTime`: intervals from 8192 s on, whose exponent overflows its four bits.
- `timeslot_destroy` and the destruction of windows and tables: freeing only.
- `RlSeq.RlTable.constructor`: a window size of 1, for which a window can overflow, and of 0, which
  divides by zero.
- A configured `max_missed_tc` of 0, where a TC's deadline is the moment it arrives and its own purge
  frees the entry being written.
- `uint32_t` queue sizes, the overflow of the relay coefficient, and the rounding of `float`.
- End-to-end completeness of relaying: a TC first heard from a node that did not choose this one is
  marked as seen and never relayed, so the code does not provide it.
- Relay coverage between HELLOs: expiry does not trigger a new choice, so coverage is a postcondition.
- That the best link is the best of all links: a HELLO overwrites the quality of the current link.
- `hf_mul_tv`, the duplicate table and the broadcast log: unused, or only easy members.
