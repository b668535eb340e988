# Chord ring, lookup and support structures of tace.chat

A Dafny model of the distributed hash table of tace.chat: ring maintenance as an asynchronous step
machine, key lookup over finger tables, successor lists and failover, network-size estimation and
gossip, replica choice, key migration, the per-host connection limiter, and the graph walks with
which the integration tests judge a ring.

## How the model is laid out

| file | what it holds |
|---|---|
| `Ids.dfy` | the 160-bit circle: bytes, integers, distances, the interval test |
| `Walks.dfy` | pointer walks in any finite successor map, cycles and their period |
| `Clockwise.dfy` | walks on the circle that never wind past their target; ordered cycles; ideal rings |
| `Pointers.dfy` | what one atomic stretch of `join`, `stabilize`, `notify` does to a node's two pointers |
| `Protocol.dfy` | the network as a state machine: members, answers in flight, notifications |
| `RingSafety.dfy` | the invariant of every step and the ring theorem over every run |
| `Convergence.dfy` | quiescence, the potential that bounds pointer changes, the ideal ring stays |
| `Fairness.dfy` | runs in which every member completes rounds: they exist and reach the ideal ring |
| `Tiling.dfy`, `Sums.dfy` | the arcs of an ideal ring tile the circle; finite sums |
| `Lookup.dfy` | the search loop over any finger tables, with its cap and failing calls |
| `Routing.dfy` | exact finger tables: when lookups are exact, and what finger repair does |
| `SuccessorLists.dfy` | gathering, padding and using successor lists |
| `Failover.dfy` | the ring after a node has switched to a listed backup |
| `SizeEstimate.dfy` | local estimates, update rules, gossip runs |
| `Replicas.dfy`, `KeyData.dfy` | replica choice; range queries and migration |
| `Node.dfy` | the node as a class whose methods update its fields, each stretch proved to be a step of the machines |
| `Limiter.dfy` | the connection limiter and all its interleavings |
| `RingChecker.dfy` | `check_ring_connectivity` and `find_reachable_nodes` |

Ids stand for addresses and are distinct. A step of the machine is the code between two network calls.
`stabilize` is two stretches with a question and an answer in flight; a node runs one at a time.
`notices` keeps every notification ever sent, so it may be delivered late, repeatedly or never. A
predecessor may be cleared at any moment, which also covers a `stabilize` that clears it just after a
`notify` set it. A joiner may be given any member as its successor. A failed `GetPredecessor` call that
finds no other successor is the step `Abandon`.

The central relation is `Leads(m, a, c)`: following successors from a reaches c with arcs adding up to
the clockwise distance from a to c, a whole turn when a = c. Every pointer change replaces an arc by a
path inside it, so this relation only ever grows.

## What was found

Routing over exact finger tables turns out to depend on the membership alone: a hop is the *stride* from
a node to the first member at least half-way, by the highest bit of the distance, to the true
predecessor. `Hops` counts strides; `Lands` says that none of them starts right next to its goal.

- A lookup of a non-member id is exact if and only if the strides land and are at most ten
  (`LookupExactness`). All such lookups are exact if and only if no two members are adjacent without a
  third right behind them, finger 0 never being repaired, and no member is more than ten strides away
  (`ExactRoutingNeedsSpace`). `AdjacentMembersFail` and `TwelveCanBeTooMany` are rings on which one or the
  other fails; with eleven members or fewer the cap never matters.
- A lookup for the id of a member may answer with the member after it: `MemberLookupExactness` says for
  which rings, `FixFingerKeepsExactness` for which fingers repair turns an exact entry into a wrong one,
  `FixFingerFails` gives an instance.
- A decrement whose `try_lock` fails is lost for good. A host is closed for ever exactly once five are
  lost (`LostDecrementsCountForEver`), and any host can get there (`FiveLeaksCloseAHost`).
- `check_ring_connectivity` compares counts. It reports nothing on a broken ring exactly when there are
  two nodes and both name strangers (`CheckerDecidesRing`); in every other case it decides ring shape.
- Failover after a lost reply can leave live nodes on no cycle for a while: those between the node and
  the backup it adopted, none of which answered its ping. One ordered ring through the backup remains
  (`FailoverKeepsOneRing`), and later rounds take the skipped nodes back (`SkipIsTakenBack`).

Where comments and code disagree the model follows the code: the finger test includes its end although
the comment at `node/src/node.rs:1134` says exclusive; (n, n] is empty in `is_between`, but
`get_data_range` adds the end point back.

## Model

| member | source | states |
|---|---|---|
| Ids.BiguintToNodeId | lib/src/lib.rs:15-31 | Both the padding and the truncating branch give the 20 bytes whose value is n mod 2^160. |
| Ids.NodeIdRoundTrip | lib/src/lib.rs:10-31 | Decoding then encoding is the identity on ids; encoding then decoding any natural gives it mod 2^160. |
| Ids.AddIdPowerOf2 | lib/src/lib.rs:34-41 | On decoded ids, adding 2^i for any shift i is addition mod 2^160. |
| Ids.BetweenIsDistance | lib/src/lib.rs:45-64 | For start and end different, membership in (start, end] is 0 < dist(start, id) <= dist(start, end) mod 2^160; the interval is empty when they agree. |
| RingSafety.OneOrderedRing | node/src/node.rs:1456-1704 | In every state reachable from one bootstrap node: every member reaches it by successors, it lies on a cycle whose nodes stand in clockwise order with arcs adding up to exactly 2^160, and there is no other cycle. |
| RingSafety.PathsLast | node/src/node.rs:1556-1566 | A winding-free path between two members survives every later run of joins, stabilizations, notifications and clearings. |
| RingSafety.PredecessorsLead | node/src/node.rs:1664-1702 | Every stored predecessor, every answer in flight and every pending notification names a node with a winding-free path to the node concerned; a lone node has no predecessor. |
| RingSafety.StepKeepsInv | node/src/node.rs:767-837 | Each single step, a join to an arbitrary member included, keeps the invariant and only adds winding-free paths. |
| RingSafety.NoticesLast | node/src/node.rs:1635-1704 | A notification once sent can be delivered in every later state, late or again, whatever happens in between. |
| Protocol.ReachableGoesOn | node/src/node.rs:1456-1704 | The reachable states are closed under every step that is enabled, lost pings and joins to any member included. |
| Convergence.QuietIffIdeal | node/src/node.rs:1493-1702 | In a reachable state no stabilize-and-notify round changes a pointer exactly when each successor is the next member clockwise and names the node as its predecessor. |
| Convergence.IdealRingLasts | node/src/node.rs:1556-1704 | From the ideal ring on, whatever was still in flight, no run without joins and cleared predecessors changes a pointer. |
| Convergence.LostPing | node/src/node.rs:1888-1892 | A lost ping on an ideal ring makes the node forget its predecessor and changes nothing else; the ring is not ideal then, and the next notification of that predecessor restores the very same state. |
| Convergence.ChangesAreBounded | node/src/node.rs:1557-1700 | With N members, no joins and no cleared predecessors, any run makes at most 2N(N-1) pointer changes. |
| Convergence.StepLowersPotential | node/src/node.rs:1557-1700 | Every pointer moved lowers the total number of members between nodes and their pointers by at least one. |
| Fairness.FairRunsConverge | node/src/node.rs:1456-1704 | From every reachable state with N members, every run of more than 2N(N-1) stretches in each of which every member completes a round ends in the ideal ring of the present members, whatever else is interleaved. |
| Fairness.IdealIsAlwaysWithinReach | node/src/node.rs:1456-1704 | Such runs of any length exist from every reachable state, and so does a continuation that ends in the ideal ring. |
| Clockwise.LeadsIsOneSweep | node/src/node.rs:1556-1566 | The inductive relation used throughout is the one meant: a walk of at least one step whose arcs add up to the clockwise distance. |
| Clockwise.CycleIsIdeal | node/src/node.rs:1493-1629 | One winding-free cycle reached by all, with injective pointers, is the ideal ring. |
| Tiling.EveryKeyHasOneOwner | lib/src/lib.rs:45-64 | On an ideal ring of two or more members each key passes the interval test of exactly one neighbouring pair. |
| Tiling.ArcsTile | node/src/node.rs:1773-1783 | The ranges used for size estimation add up to exactly 2^160. |
| Lookup.ClosestPrecedingNode | node/src/node.rs:1117-1140 | The result is the entry in (self, id] behind which no entry of higher index is, or self when no entry is there. |
| Lookup.FindPredecessor | node/src/node.rs:1012-1114 | The loop with its ten-hop cap and its failing calls computes the search function the lookup theorems are about. |
| Lookup.FindSuccessor | node/src/node.rs:919-986 | When the node found is self or answers, the answer is its successor; when it does not answer, a backup if there is one, and else the own successor. |
| Failover.LookupFallsBack | node/src/node.rs:947-982 | On an ideal ring after crashes, when the node found does not answer, the answer is the nearest live member clockwise whenever a listed one is alive, and else the own successor. |
| Lookup.SearchApproaches | node/src/node.rs:1028-1139 | On any ring, ideal or not, with any fingers and failing calls, a search for a non-member id only comes closer and never passes it. |
| Lookup.SearchNeverOvershoots | node/src/node.rs:1028-1139 | On an ideal ring, for a non-member id, any fingers and any failing calls, the result lies from the start up to the true predecessor, and a satisfied guard means it is the true predecessor. |
| Lookup.TrailClimbs | node/src/node.rs:1028-1139 | Each hop moves strictly clockwise and never past the true predecessor. |
| Lookup.TrailIs | node/src/node.rs:1028-1066 | The uncapped trail: every node but the last has not arrived and sends on to its closest preceding entry; the last has arrived or knows none. |
| Lookup.SearchEnds | node/src/node.rs:1034-1111 | With failing calls the search ends at the first node of its trail that is the last, is reached with the tenth hop, or fails one of its two calls; it returns that node itself. |
| Lookup.SearchExactness | node/src/node.rs:1024-1036 | On an ideal ring with any fingers, the search finds the true predecessor exactly when its uncapped trail ends there within the hops left of the ten. |
| Routing.IdealHasExactTables | node/src/node.rs:1848-1862 | Every ideal ring has tables whose fingers 1 to 159 are exact. |
| Routing.HopHalves | node/src/node.rs:1129-1139 | Two or more before the true predecessor, a hop goes to the first member half-way to it and clears the highest bit of the distance. |
| Routing.ExactTrail | node/src/node.rs:1012-1140 | On exact tables the trail ends at the true predecessor if and only if the strides land, and has as many hops. |
| Routing.SpacedLands | node/src/node.rs:1129-1139 | Where no two members are adjacent without a third, strides land, and are no more than the members passed and fewer than the bits of the distance. |
| Routing.LookupExactness | node/src/node.rs:919-935 | find_successor with its cap returns the first member at or after a non-member id if and only if the strides land and are at most ten. |
| Routing.LookupIsExact | node/src/node.rs:919-935 | It does so in particular whenever the bits to clear or the members to pass are at most ten. |
| Routing.SmallRingLookup | node/src/node.rs:1025 | The cap never matters on rings of at most eleven members. |
| Routing.TwelveCanBeTooMany | node/src/node.rs:1025-1036 | Eleven is the most: a ring of twelve with exact tables and no adjacent members on which the cap makes a lookup wrong. |
| Routing.ExactRoutingNeedsSpace | node/src/node.rs:1025-1036 | With finger 0 unrepaired and ten hops at most, exact tables answer every lookup of a non-member id exactly if and only if no two members are adjacent without a third right behind and none is more than ten strides from another. |
| Routing.MemberLookupExactness | node/src/node.rs:1135 | find_successor of a member's own id, cap included, is exact from all others if and only if no power of two separates its predecessor from it, seen from any of them, and that predecessor is within ten strides of each; from itself it never is. |
| Routing.FixFingerKeepsExactness | node/src/node.rs:1848-1862 | On any ideal ring, repairing an exact finger keeps it exact if and only if its target is the own successor, or is no member's id and the strides to its predecessor land and are at most ten. |
| Routing.MemberTargetOvershoots | node/src/node.rs:1067-1070 | When the target is another member, repair stores the member after it. |
| Routing.FixFingerFails | node/src/node.rs:1848-1862 | A ring of three members with exact tables where repair breaks an exact entry. |
| SuccessorLists.GatheredAlways | node/src/node.rs:1399-1447 | For arbitrary replies the list has three entries, the successor first, and the node itself only if it is its own successor. |
| SuccessorLists.GatheredIs | node/src/node.rs:1400-1447 | For arbitrary replies, wherever they break off: the list is the successor and the usable replies in order, the last one repeated. |
| SuccessorLists.IdealList | node/src/node.rs:1388-1454 | On an ideal ring of N members the list is the first min(3, N-1) clockwise, padded with the last. |
| SuccessorLists.FailoverTakesNearest | node/src/node.rs:1352-1385 | After any crashes failover picks the nearest live member clockwise if any listed one is alive, and gives up exactly when none is. |
| Failover.SwitchKeepsOneRing | node/src/node.rs:1504-1523 | When a node of an ideal ring switches to any other member, one ordered ring reached by all remains; exactly the skipped members are off it, so nobody is if and only if the switch is to the own successor. |
| Failover.FailoverKeepsOneRing | node/src/node.rs:1504-1523 | Failover after any crashes or lost replies: one ordered ring reached by all, every member that answered is on it, and everybody is if and only if the own successor answered. |
| Failover.SkipIsTakenBack | node/src/node.rs:1556-1566 | With the predecessor pointers of the ideal ring, each later stabilization steps back by one of the members skipped. |
| Failover.LostReplySkipsALiveNode | node/src/node.rs:1504-1566 | The smallest instance: with a lost reply and no crash a live node is on no cycle until the next stabilization. |
| SizeEstimate.EstimatesStraddleTheTruth | node/src/node.rs:1763-1797 | On an ideal ring of N members the reciprocals of the local estimates add up to 1, so some estimate is at least N and some at most N. |
| SizeEstimate.LocalEstimateIsShare | node/src/node.rs:1777-1796 | A local estimate is at least 1 and its reciprocal is the arc's share of the circle, a lone node's included. |
| SizeEstimate.BoundsStayBetween | node/src/node.rs:1799-1805 | Bounding stays between old and new value exactly when the old one is not negative or the new one is below the inverted bounds. |
| SizeEstimate.UpdatesStayBetween | node/src/node.rs:1170-1177 | Both update rules end between the own estimate and the value fed in. |
| SizeEstimate.UpdatesClosedForm | node/src/node.rs:1799-1846 | The combined effect of blending, bounding and smoothing: 5 or 2 percent of the news, capped at a rise of 30 percent. |
| SizeEstimate.UpdatesInGeneral | node/src/node.rs:1799-1846 | The closed forms for all reals; an estimate of zero is replaced at once by a local one and never changed by gossip. |
| SizeEstimate.GossipStaysInHull | node/src/node.rs:1144-1284 | After every gossip run, estimates held and in flight lie between 1 and the largest local estimate seen. |
| SizeEstimate.TalkLasts | node/src/node.rs:1181-1284 | Copies in flight stay in flight, so they may arrive late or again. |
| Replicas.GetReplicaNodes | node/src/node.rs:534-582 | The primary first, at most three distinct nodes, never self among the extras, none left out while there is room, and on the recorded numbers no candidate left out has a smaller load than one taken, nor an equal one with a smaller id. |
| Replicas.SortByLoadIs | node/src/node.rs:566-574 | The stable sort by load keeps all nodes and orders ties by id. |
| KeyData.RangesSplit | node/src/node.rs:736-765 | For b strictly inside (a, c) the answers for (a, b) and (b, c) are disjoint and together the answer for (a, c). |
| KeyData.RangeIs | node/src/node.rs:749-754 | A range answer holds exactly the stored keys clockwise after the start and up to the end, and the end itself, with all their values. |
| KeyData.SentIs | node/src/node.rs:2200-2208 | The values acknowledged are exactly those whose send succeeded, in order. |
| KeyData.LeftIs | node/src/node.rs:2209-2222 | The values left are those whose send failed, each behind the failures before it and what others had stored by then. |
| KeyData.WholeMigrationConserves | node/src/node.rs:2200-2224 | For every pattern of send results, what was acknowledged and what is left make up what was there and what arrived meanwhile. |
| Node.ChordNode.constructor | node/src/node.rs:131-161 | A new node is its own successor, has no predecessor and lists only itself. |
| Node.ChordNode.StartNewNetwork | node/src/node.rs:896-916 | Resets pointers and successor list to a lone node. |
| Node.ChordNode.Join | node/src/node.rs:767-837 | Adopts the named successor unless it is the joiner itself; the node and the machine's join step end with the same pointers. |
| Node.ChordNode.StabilizeAsk | node/src/node.rs:1456-1502 | First stretch: a lone node clears its predecessor, any other asks its successor; exactly the machine's step. |
| Node.ChordNode.AnswerPredecessor | node/src/node.rs:359-372 | The node asked answers with its present predecessor; exactly the machine's step. |
| Node.ChordNode.StabilizeUse | node/src/node.rs:1540-1618 | Second stretch: adopts the answer if it lies clockwise after the node and up to the one asked, then notifies the present successor; exactly the machine's step. |
| Node.ChordNode.Notify | node/src/node.rs:1635-1709 | Accepts a closer candidate, ends being alone, and sends copies of exactly the stored keys behind the candidate; exactly the machine's step. |
| Node.ChordNode.CheckPredecessor | node/src/node.rs:1864-1892 | Clears the predecessor exactly when the ping fails, which is the machine's step of a lost ping. |
| Node.ChordNode.FindNextAvailableSuccessor | node/src/node.rs:1352-1385 | The listed node other than self that answers and before which none does, if there is one. |
| Node.ChordNode.UpdateSuccessorList | node/src/node.rs:1388-1454 | The two loops store the successor, then each reply until one fails or names the node itself, then copies of the last. |
| Node.ChordNode.FailOver | node/src/node.rs:1504-1538 | The error branch of stabilize: new successor and new list, or no change at all. |
| Node.ChordNode.FixFinger | node/src/node.rs:1848-1862 | The lookup's answer replaces the chosen entry and no other; on exact tables without failing calls the new entry is exact just when the condition above holds. |
| Node.ChordNode.UpdateLocalSizeEstimate | node/src/node.rs:1325-1334 | The local estimate of the arc is blended in, ending between old value and local estimate. |
| Node.ChordNode.HandleShareMetrics | node/src/node.rs:1170-1179 | The incoming estimate is averaged, bounded and smoothed, and the result is both kept and returned, as the gossip machine has it. |
| Node.ChordNode.ShareMetrics | node/src/node.rs:1185-1260 | Measures, then sends a copy of the new estimate unless the node is alone. |
| Node.ChordNode.GetDataRange | node/src/node.rs:736-765 | In any table order, each stored key clockwise after the start and up to the end, or the end itself, once and with all its values. |
| Node.ChordNode.Store | node/src/node.rs:455-464 | Appends the value under the key and touches no other key. |
| Node.ChordNode.MigrateKeyToNode | node/src/node.rs:2184-2226 | The loop acknowledges and restores exactly as specified, touches no other key and loses no value. |
| Node.ChordNode.ReplicaNodes | node/src/node.rs:534-582 | Replica choice over the node's own list, fingers and recorded loads. |
| Limiter.LimiterBalances | node/src/network_client.rs:42-100 | In every interleaving a host's count is exactly live connections plus pending plus lost decrements and at most 5; no decrement saturates or misses its entry. |
| Limiter.GrantedBelowCap | node/src/network_client.rs:42-63 | In every interleaving a connection is granted exactly while live, pending and lost together are below 5. |
| Limiter.LostDecrementsCountForEver | node/src/network_client.rs:90-100 | After any run, a host is refused in every continuation if and only if it has lost five decrements. |
| Limiter.FiveLeaksCloseAHost | node/src/network_client.rs:90-100 | Some run closes a given host for ever with no connection open and no decrement pending. |
| Limiter.PreparedKeepsCounts | node/src/network_client.rs:77-82 | Cleanup and entry creation change no host's count. |
| Limiter.PreparedIs | node/src/network_client.rs:42-63 | Entries go only when some entry is older than half a minute, and then exactly the idle ones at least a minute old; the host then has an entry, a new one if it had none left. |
| Limiter.ConnectionLimiter.CanConnect | node/src/network_client.rs:42-63 | Cleans up when some entry is older than the interval, makes the entry, compares with the cap. |
| Limiter.ConnectionLimiter.Acquire | node/src/network_client.rs:164-175 | The locked block counts a connection exactly when it is granted. |
| Limiter.ConnectionLimiter.DecrementCount | node/src/network_client.rs:71-75 | Saturating decrement of a present entry. |
| RingChecker.WalkFrom | tests/src/integration/invariants.rs:41-70 | The walk equals one without a step limit: the limit never stops it. |
| RingChecker.CheckRingConnectivity | tests/src/integration/invariants.rs:33-87 | Reports, per start, the node it got stuck at and the nodes missed when the count is off. |
| RingChecker.WalkedIs | tests/src/integration/invariants.rs:41-70 | On any input a walk visits exactly the nodes that follow its start, and gets stuck exactly at one of them without a successor. |
| RingChecker.ReportIsSound | tests/src/integration/invariants.rs:59-83 | Whatever is reported is so: the node named has no successor, the nodes listed do not follow the start. |
| RingChecker.ReportIsComplete | tests/src/integration/invariants.rs:59-83 | And everything of the kind is reported. |
| RingChecker.CheckerDecidesRing | tests/src/integration/invariants.rs:33-87 | Nothing is reported exactly when the successors form one cycle through all nodes, or there are two nodes and both name strangers. |
| RingChecker.StrangerFoolsTheCount | tests/src/integration/invariants.rs:72-83 | An instance of the one exception: two nodes naming a third, unknown one go unreported. |
| RingChecker.FindReachableNodes | tests/src/integration/invariants.rs:346-375 | Terminates and returns exactly the nodes connected to the start by successor and predecessor links. |

## Left out

- Ring safety over runs with crashes or failed `GetPredecessor` calls that end in failover: a skipped node is on no cycle for a while, so the ring theorem anchored at it fails there (`LostReplySkipsALiveNode`). What one failover does to an ideal ring is proved in full.
- Data hand-over as an ownership transfer: `join` asks for (self, successor] and `notify` sends the keys in (candidate, self], both as copies, so no claim that the right node owns a key afterwards would hold.
- Node.ChordNode.Store: replication to other nodes after the local write is not part of the method; replica choice is modelled on its own.
- Replicas.GetReplicaNodes: the primary is a parameter, because placement by virtual nodes depends on hashes; loads are totally ordered reals, so NaN is not modelled.
- Lookup.FindPredecessor: runs on a ring at rest, with pointers and tables of all members unchanged during one lookup.
- SizeEstimate.GossipStaysInHull: real arithmetic in place of 64-bit floating point, and only the network-size estimate; the key-count estimate uses the same rule without bounds and the other metrics are plain means.
- Node.ChordNode.Join: the request for data that follows, and storing the answer, are not part of the method; they move no pointer.
- Node.ChordNode.CheckPredecessor: the data reconciliation that follows a cleared predecessor only adds values to the table.
- Limiter.ConnectionLimiter.CanConnect: time is a natural number of milliseconds given by the caller.
- Mutex poisoning and its fallbacks, TCP, HTTP, timeouts, retries, serialization and logging.
- Hashing of addresses to ids, cryptography, challenges, the HTTP interface, the collector, the web client.
- The server-side connection counter of `handle_connection` and the remaining checks of the test suite's invariants, which are simple comparisons.
