# The common layer of OverSim, modelled and proved in Dafny

OverSim simulates peer-to-peer overlays. Its common layer holds algorithms and protocol state machines that all overlays
share. This project models them as the code has them, with classes whose methods change their fields in place where the
code does so, and proves what the code assumes, asserts or wonders about. `dafny verify dfyconfig.toml` checks everything.

| module | models | main result |
|---|---|---|
| TreeManagement | the domain tree: every node finds its parent alone by bisecting the key space | the local decisions of all nodes link them into one tree |
| NodeVector | the bounded vector with three ranked zones and recursive re-insertion | it always holds the zone-wise best of everything offered, in any order |
| LookupVector, IterativeLookup | the iterative lookup: parallel paths, shared RPCs, pings of siblings, retries, the stop rule | every lookup ends, tells its listener once, with the closest nodes it was told of, authenticated; its termination rests on the theorem about the vector |
| RecursiveRouting | recursive and source routing hop by hop, and the way back of a reply | recorded routes are free of loops, and replies retrace them |
| BaseRpc | calls under nonces with retries and backoff | every call has one ending, in time |
| NeighborCache | the cache of round trip times, with its eviction order and waiting callers | both indexes agree, and every accepted context is called back once, in order |
| PeerStorage | the peers in a hash map and in slots with free lists | map and slots are in bijection, and a random draw returns exactly the peers it may |
| Limbs, Bitwise, OverlayKey, Comparator | keys as arrays of 32-bit limbs, their operators, intervals, strings and metrics | limb arithmetic is arithmetic modulo 2^keyLength, with the laws of intervals and metrics |
| Sha1Spec, SHA1 | the streaming, unrolled SHA-1 | it computes the digest of FIPS 180-4 (sections 5.1.1 and 6.1.2) for any split of a message |
| ConvexHull | the Graham scan of the plotting tool, over the reals | its two chains are the upper and lower hull |
| Wrappers | an option type, powers of two, sequences without repetition | |

Events of the simulator are method calls in any order that its scheduler allows; what other modules answer (a protocol's
next hops, a random number, the content of a message) is a parameter and arbitrary. Keys are compared as numbers; that the
limb arrays compute these numbers is proved in OverlayKey. Simulation time counts ticks.

Where the code and its comments disagree, the model follows the code:

* NodeVector.h promises the position of an added element or -1. For an element that a full vector outranks, but that ties
  with its last one, `add` returns the size of the vector and cuts the element off (exactly then:
  NodeVector.PositionBehindEnd; an input: LookupVector.TieIsAnsweredBehindEnd).
* NeighborCache.h says that a query of type QUERY answers PROX_UNKNOWN; it answers PROX_WAITING. It also says that a context
  is deleted whenever no ping is sent; a context for a node that is asked already is stored.
* IterativeLookup.cc has a TODO that finishedPaths sometimes seems to be too small: it is, exactly by the paths that had
  nobody to ask inside start() (see IterativeLookup.IterativeLookup.StopMeansFinished). Another one asks how to resume if a
  potential sibling does not authenticate: the path does not resume, and the lookup may succeed with an empty result.

Some expectations are false of the code. For each of them there is an input or a run, and the exact condition under which
the expectation holds:

| expectation | it fails | it holds exactly |
|---|---|---|
| the domain tree has one root | TreeManagement.TwoRoots | without ties for the middle key: TreeManagement.OneRootIffNoTie |
| every accepted context is called back, or still stored | a run for every disabled cache: NeighborCache.ContextsAreLostIffDisabled | if the cache is enabled: the same run, and NeighborCache.NothingLost for all states |
| an answered time was measured | NeighborCache.EstimateWithoutMeasurement | but for estimates of nodes being asked for the first time: NeighborCache.MeasuredIsMeasured |
| every peer in the map has an index | PeerStorage.UnindexedIsInvalid | unless a call of setBootstrapped fails: PeerStorage.PeerStorage.SetBootstrapped |
| routes without a record are free of loops | RecursiveRouting.LoopIfNotRecorded | for up to three nodes or three hops: RecursiveRouting.LoopsIff |
| a reply takes the reverse path of its request | RecursiveRouting.ReplyTakesOneHopMore | unless the source hands the request to itself: RecursiveRouting.RoundTrip |
| finishedPaths counts all finished paths | IterativeLookup.FinishedPathsStayBehind | if every path has somebody to ask in start(): IterativeLookup.IterativeLookup.StopMeansFinished |
| a successful lookup has a result | IterativeLookup.SuccessWithoutResult | if siblings are not verified: IterativeLookup.RunLookup (the failing run is one for every configuration that verifies them and can ask anybody) |
| proximities are ordered | Comparator.TiesThroughInaccuracy | if all are accurate, or the accurate ones are equal: Comparator.OrderIfAccurate |
| SHA-1 updates may have any length | SHA1.BufferSumFails | if buffered and new bytes are fewer than 2^32: SHA1.BufferSumHolds |

## Model

| member | source | states |
|---|---|---|
| TreeManagement.TreeManager.GetResponsibleDomainKey | src/common/TreeManagement.cc:587-631 | the bisection loop ends where the descent PositionOf ends: its domain key is returned and its level kept; if the iterations run out, ZERO is returned and the level stays |
| TreeManagement.TreeManager.IsTreeDomainKeyValid | src/common/TreeManagement.cc:382-391 | true exactly if a domain key is stored and the descent still ends at it |
| TreeManagement.TreeManager.CheckParentValid | src/common/TreeManagement.cc:332-379 | the local check of a parent link: a root must be nearest to the middle of the key space; any other node must still own its domain key, which the parent is nearest to and the node is not |
| TreeManagement.TreeManager.RegisterAtParent | src/common/TreeManagement.cc:423-447 | the parent request goes to the node's domain key, which is stored |
| TreeManagement.TreeManager.HandleParentRequestResponse | src/common/TreeManagement.cc:511-540 | the responder becomes the parent; an old parent is released exactly if it is another one |
| TreeManagement.KeysAreOnTheRing | src/common/OverlayKey.cc:553-565 | interval, distance and wrapping sum used by the descent are those of the limb arrays on a ring of 2^bits |
| TreeManagement.NarrowChoice | src/common/TreeManagement.cc:619-625 | for a node that the borders enclose and that is at least 2 away from the probe key, the border update picks the half that the node is in, although the sum of the borders may wrap |
| TreeManagement.DescentExits | src/common/TreeManagement.cc:600-628 | for keys 2 apart, other than zero and 2 away from the upper end, the loop always leaves through the sibling test, before its last iteration |
| TreeManagement.EveryNodeHasPosition | src/common/TreeManagement.cc:587-631 | so every node has a level from 1 to keyLength - 1 |
| TreeManagement.NearestStaysInside | src/common/TreeManagement.cc:600-628 | whoever is nearest to the domain key at which a node ends lies no more than one key outside the borders that the node still had, and is not the node |
| TreeManagement.ParentExitsEarlier | src/common/TreeManagement.cc:600-628 | that node leaves its own descent at a strictly smaller level |
| TreeManagement.ParentLevelDecreases | src/common/TreeManagement.cc:587-631 | the node responsible for a domain key has a smaller level, unless the level is 1, which means nearest to the middle key |
| TreeManagement.LocalChecksMakeTree | src/common/TreeManagement.cc:332-379 | tree theorem: if every node's link passes its own local check, following links from any node leads, in fewer steps than the key has bits, to a self-linked node nearest to the middle key; there are no other cycles |
| TreeManagement.OneRootIffNoTie | src/common/TreeManagement.cc:341-361 | there is one root exactly if no two nodes tie for the middle key |
| TreeManagement.TwoRoots | src/common/TreeManagement.cc:341-361 | in every key space of at least 4 bits there are two well spaced nodes that tie, and whose self links both pass the check |
| TreeManagement.RegisteringMakesLinkValid | src/common/TreeManagement.cc:511-527 | once the node responsible for the domain key has answered, the local check passes, except exactly when a node nearest to the middle key was answered by another one that ties with it |
| TreeManagement.AdjacentKeysFail | src/common/TreeManagement.cc:600-630 | the spacing is needed: in every key space of at least 4 bits there are three adjacent keys, far from both ends, of which the middle one runs out of iterations |
| TreeManagement.BorderKeyFails | src/common/TreeManagement.cc:600-630 | so does the key next to the upper end, in every key space of at least 4 bits, although the only other key is three away |
| TreeManagement.EndKeysFail | src/common/TreeManagement.cc:600-630 | the first and the last key of the key space have a position exactly if they are nearest to the middle key |
| ConvexHull.Sort | simulations/tools/scatterplot.py:71 | the points are sorted by x, then y, and are the same points with the same multiplicities |
| ConvexHull.TupleLeIsOrder | simulations/tools/scatterplot.py:71 | tuples are ordered totally, by their first difference |
| ConvexHull.PopCovers | simulations/tools/scatterplot.py:73-74 | what lies on the inner side of the two edges at a popped point lies on the inner side of the edge that replaces them |
| ConvexHull.EarlierEdgeCovers | simulations/tools/scatterplot.py:73-76 | a point behind a strict turn is on the inner side of the earlier edges as well |
| ConvexHull.PushStep | simulations/tools/scatterplot.py:72-76 | after the pops, pushing the next point gives a chain whose triples turn strictly and whose edges have all scanned points on their inner side |
| ConvexHull.PopWhile | simulations/tools/scatterplot.py:73-74 | the loop pops until the last turn with the next point is strict, keeps that all points seen are covered, and counts its pops |
| ConvexHull.Hulls | simulations/tools/scatterplot.py:67-77 | U and L are subsequences of the sorted points from the smallest to the largest, every consecutive triple turns strictly, every point lies on the inner side of every edge, and there are no more pops than pushes |
| NodeVector.BaseKeySortedVector.constructor | src/common/NodeVector.h:384-396 | an empty vector with its parameters |
| NodeVector.BaseKeySortedVector.Add | src/common/NodeVector.h:464-580 | the in-place loop with its recursive re-insertions changes the vector and returns a position as AddTo says; it terminates because a displaced element is added further back |
| NodeVector.BaseKeySortedVector.InsertBeforeEntry | src/common/NodeVector.h:496-544 | an insertion moves the last entry of a full zone out, which is added again to what is left |
| NodeVector.AddWell | src/common/NodeVector.h:464-580 | adding keeps the zones ranked and free of duplicates and brings in nothing else; what is lost is outranked at every position of a full vector, and what was outranked so before still is |
| NodeVector.ReturnedPosition | src/common/NodeVector.h:457-463 | a returned position holds the element, with everything in front of it unmoved; -1, or a position behind the end, means that nothing changed |
| NodeVector.PositionBehindEnd | src/common/NodeVector.h:457-463 | the position is behind the end exactly for a new identity and a full vector of which every entry ranks no later than the element, and whose last entry some comparator does not put before it |
| NodeVector.RefusedIff | src/common/NodeVector.h:417-435 | -1 is returned exactly if the identity is in the vector, or if the vector is full and every comparator puts its last entry before the element |
| NodeVector.DisplacedIsOfferable | src/common/NodeVector.h:510-517 | the displaced entry may be added again: its identity is gone from the vector, and it belongs to a later zone |
| NodeVector.ShutOutStaysOut | src/common/NodeVector.h:417-435 | an element that a full vector outranks at every position changes nothing |
| NodeVector.DuplicateIgnored | src/common/NodeVector.h:478-487 | an element whose identity is in the vector changes nothing and returns -1 |
| NodeVector.EvictedNeverReturns | src/common/NodeVector.h:464-580 | what was offered once and is not in the vector can never get in again |
| NodeVector.AddKeepsBest | src/common/NodeVector.h:464-580 | a vector that is the zone-wise best of the elements offered so far is so with one more element offered |
| NodeVector.AddAll | src/common/NodeVector.h:464-580 | so it is after any sequence of calls from an empty vector |
| NodeVector.ZoneWiseBest | src/common/NodeVector.h:489-553 | each position holds an element that no element offered and not placed before it beats under its zone's comparator |
| NodeVector.OrderDoesNotMatter | src/common/NodeVector.h:464-580 | for comparators without ties, two streams that offer the same elements in any order and multiplicity give the same identities in the same order |
| LookupVector.TieIsAnsweredBehindEnd | src/common/NodeVector.h:457-463 | with room for one and two nodes at the same distance, the second one gets position 1 and is not in the vector |
| LookupVector.AddHop | src/common/IterativeLookup.cc:1142-1150 | adding a next hop keeps: queried keys that are not among the hops can never be added again (by NodeVector.EvictedNeverReturns), and those that are stay marked; the termination of a lookup rests on this |
| LookupVector.MarkHop | src/common/IterativeLookup.cc:1082-1095 | marking a hop when its key is queried keeps it so |
| LookupVector.AddSiblingKeepsBest | src/common/IterativeLookup.cc:444-455 | the siblings vector stays the sorted, duplicate-free closest nodes of those offered |
| LookupVector.BestIsClosest | src/common/IterativeLookup.cc:444-455 | such a vector is in order of distance, has no key twice and nobody that was not offered, and whoever was offered is in it by its key or is no closer than anybody in the full vector |
| LookupVector.KeyAddableIff | src/common/NodeVector.h:417-435 | in vectors ranked by distance an element is addable exactly if there is room, or if it is no farther than the last entry |
| LookupVector.KeyRefusedIff | src/common/NodeVector.h:417-435 | such a vector returns -1 exactly for a key it has, or, when full, for a distance larger than that of its last entry |
| IterativeLookup.IterativeLookup.constructor | src/common/IterativeLookup.cc:69-109 | a lookup that is neither running nor finished |
| IterativeLookup.IterativeLookup.SendRpc | src/common/IterativeLookup.cc:650-683 | the asking path is registered under the address, at the end of those that wait for the same answer; nothing happens when the lookup is not running |
| IterativeLookup.IterativeLookup.Query | src/common/IterativeLookup.cc:1082-1095 | a query is of a key that the path never queried before, registers one info, keeps the books and lowers the work left |
| IterativeLookup.IterativeLookup.QueryHops | src/common/IterativeLookup.cc:1071-1113 | as many hops are queried as were asked for, or all usable ones among the first redundantNodes if they are fewer; under strictParallelRpcs no more are out than parallelRpcs |
| IterativeLookup.IterativeLookup.PathSendRpc | src/common/IterativeLookup.cc:1036-1140 | the number of RPCs sent under the hop limit, the strict limit and the rule for unchanged paths; a path finishes, without success, exactly at the hop limit or if it waits for nothing afterwards |
| IterativeLookup.IterativeLookup.QueriesAre | src/common/IterativeLookup.cc:1071-1113 | a path asks only hops among the first redundantNodes that it has not asked, that are not dead and, under visitOnlyOnce, not visited |
| IterativeLookup.IterativeLookup.GivesUpIf | src/common/IterativeLookup.cc:1071-1140 | a path that may ask and gives up nevertheless has only hops that were asked, are dead or, under visitOnlyOnce, were visited |
| IterativeLookup.IterativeLookup.AddSibling | src/common/IterativeLookup.cc:416-459 | a genuine node is offered to the result; the answer is yes exactly for the node looked for, for every node taken as it comes, or for a new key that there is room for or that is no farther than the last sibling; an unverified node is pinged exactly if there is room or it is no farther than the last sibling, and it was not pinged yet, and nothing else changes |
| IterativeLookup.IterativeLookup.GenuinesAreOffered | src/common/IterativeLookup.cc:424-437 | of a sequence of nodes, exactly the genuine ones are offered to the result, in order |
| IterativeLookup.IterativeLookup.TakeSibling | src/common/IterativeLookup.cc:439-459 | the result stays the closest nodes offered, or the first ones for a single unverified path; the answer tells whether the node was taken in |
| IterativeLookup.IterativeLookup.Ping | src/common/IterativeLookup.cc:427-434 | a node is pinged once per attempt; the measure on pings decreases |
| IterativeLookup.IterativeLookup.PathAdd | src/common/IterativeLookup.cc:1142-1150 | merging a next hop keeps all invariants of the path |
| IterativeLookup.IterativeLookup.PathHandleResponse | src/common/IterativeLookup.cc:776-896 | one answer less is waited for; hops, step and visited advance; exactly the nodes that Named picks from the response go to addSibling, in order, once the sender counts as visited; the path succeeds exactly if the response has the node looked for or comes from a sibling with nodes, in time |
| IterativeLookup.IterativeLookup.UseResponse | src/common/IterativeLookup.cc:812-896 | a response that does not end the path brings its new hops in and sends as many RPCs as there are new ones among the first redundantNodes, up to parallelRpcs; its named nodes have gone to addSibling |
| IterativeLookup.IterativeLookup.NamedAre | src/common/IterativeLookup.cc:835-853 | the named nodes: the first one with the key looked for, or all nodes of a sibling, or nobody |
| IterativeLookup.IterativeLookup.AddClosestNodes | src/common/IterativeLookup.cc:823-853 | the next hops are the old ones with all nodes of the response added in order; the loop stops early exactly at the node looked for; the node looked for, or all nodes of a sibling, and nobody else go to addSibling |
| IterativeLookup.IterativeLookup.PathHandleTimeout | src/common/IterativeLookup.cc:910-959 | one answer less is waited for, and new RPCs go out after every timeout or after the last one |
| IterativeLookup.IterativeLookup.PathHandle | src/common/IterativeLookup.cc:534-571 | an answer in time makes its sender visited, takes the path one step further and offers its named nodes; otherwise siblings, offered and pinged nodes stay; nobody becomes assured; the path succeeds exactly by an answer in time that ends it |
| IterativeLookup.IterativeLookup.HandleInfo | src/common/IterativeLookup.cc:534-571 | a path's share of an event keeps books, counters and siblings, offers the named nodes of an answer in time, changes no other path, and does not raise the work left |
| IterativeLookup.IterativeLookup.CountPath | src/common/IterativeLookup.cc:560-569 | a path that has just finished is counted once |
| IterativeLookup.IterativeLookup.TakeInfos | src/common/IterativeLookup.cc:523-529 | an answered address leaves the map, and exactly its infos become those still to handle |
| IterativeLookup.IterativeLookup.StopMeansFinished | src/common/IterativeLookup.cc:306-333 | when the rule stops a sibling lookup, all paths have finished; finishedPaths is smaller than the number of paths exactly if some path had nobody to ask when it was created, which is what the TODO wonders about; successfulPaths <= finishedPaths <= parallelPaths |
| IterativeLookup.IterativeLookup.ShouldStopIff | src/common/IterativeLookup.cc:306-326 | the stop rule in plain terms: nothing is due any more; or a path has succeeded and the node looked for is found; or, for siblings, no ping is out and all paths have finished, none of which had nobody to ask when it was created |
| IterativeLookup.IterativeLookup.FinishedIfIdle | src/common/IterativeLookup.cc:222-225 | a path finishes inside start() exactly if its first hops are this node itself, which may not be visited twice, or parallelRpcs is zero |
| IterativeLookup.FinishedPathsStayBehind | src/common/IterativeLookup.cc:328-333 | a lookup with two paths of which one finishes inside start(): whatever is answered, it ends with one finished path counted |
| IterativeLookup.IterativeLookup.FoundMeansSome | src/common/IterativeLookup.cc:439-459 | a result is empty only if nothing that counts was offered |
| IterativeLookup.SuccessWithoutResult | src/common/IterativeLookup.cc:835-843 | the TODO on siblings that do not authenticate: for every configuration that verifies siblings and can ask anybody there is a run that ends with success and an empty result |
| IterativeLookup.IterativeLookup.SuccessIsCounted | src/common/IterativeLookup.cc:328-333 | a successful path and a positive counter mean the same between events |
| IterativeLookup.IterativeLookup.CheckStop | src/common/IterativeLookup.cc:289-356 | if the rule holds, the lookup ends with success exactly if a path succeeded, or without success and retries, or starts again with fewer retries and everything cleared; if not, it goes on unchanged and something is due |
| IterativeLookup.IterativeLookup.Conclude | src/common/IterativeLookup.cc:328-355 | the end of it: once a path has succeeded, the lookup never starts again and ends with success |
| IterativeLookup.IterativeLookup.Retry | src/common/IterativeLookup.cc:339-346 | a quiet stop and a new start with fewer retries, which knows nobody but itself |
| IterativeLookup.IterativeLookup.Delete | src/common/IterativeLookup.cc:111-116 | the destructor ends the lookup: the listener is told once, nothing stays pending |
| IterativeLookup.IterativeLookup.Stop | src/common/IterativeLookup.cc:240-286 | success is that of any path; rpcs, pings and paths are gone; the listener is told if there is one |
| IterativeLookup.IterativeLookup.Start | src/common/IterativeLookup.cc:131-238 | every start ends in a state in which something is due, or in which the lookup is over; nobody but the node itself is visited, nobody dead or pinged, and only the own answer is assured and offered; a start with somebody to ask goes on with all paths just sent |
| IterativeLookup.IterativeLookup.StartPaths | src/common/IterativeLookup.cc:206-238 | the second half of it |
| IterativeLookup.IterativeLookup.OpenPaths | src/common/IterativeLookup.cc:206-225 | as many paths as the nodes known allow, each with its share of the hops |
| IterativeLookup.IterativeLookup.StartLocally | src/common/IterativeLookup.cc:131-197 | an attempt begins with visited, dead and pinged nodes and siblings cleared, and settles at once exactly if no node is known or this node is a sibling; then exactly the nodes of the local answer are assured |
| IterativeLookup.IterativeLookup.SettleLocally | src/common/IterativeLookup.cc:160-189 | a local answer succeeds exactly if this node is a sibling, and for a key lookup has the key; the nodes offered are then those of the answer, or this node |
| IterativeLookup.IterativeLookup.ReducePaths | src/common/IterativeLookup.cc:206-209 | no more paths than nodes |
| IterativeLookup.IterativeLookup.CreatePaths | src/common/IterativeLookup.cc:211-225 | all paths are live and booked, each with its share of the hops, and as many have finished as have nobody to ask |
| IterativeLookup.IterativeLookup.CreatePath | src/common/IterativeLookup.cc:213-225 | a new path gets every parallelPaths-th hop, sends its first RPCs to them, and waits for an answer or has finished; the other paths stay |
| IterativeLookup.IterativeLookup.DealHops | src/common/IterativeLookup.cc:217-220 | the loop adds exactly those hops, in order |
| IterativeLookup.DealtAre | src/common/IterativeLookup.cc:217-220 | they are exactly the nodes at the places i, i + n, i + 2n and so on |
| IterativeLookup.IterativeLookup.Lookup | src/common/IterativeLookup.cc:689-717 | a lookup starts with its retries |
| IterativeLookup.IterativeLookup.HandleFindNodeResponse | src/common/IterativeLookup.cc:519-593 | the response is taken by at most one path: an unfinished one whose question belongs to its present step, or any if all answers are used, or if it comes late from a sibling; and it is taken if the first question of an unfinished path is of these kinds. That path goes one step further, all others keep their steps, and the named nodes are offered; nobody but the sender becomes visited; nobody becomes assured; the lookup ends, starts again or has less work left; an unknown address changes nothing |
| IterativeLookup.IterativeLookup.TakeResponse | src/common/IterativeLookup.cc:519-572 | the same before the stop rule is asked: one path, and only one that still waits for this answer by its step or by the configuration, takes the response |
| IterativeLookup.IterativeLookup.Distribute | src/common/IterativeLookup.cc:531-572 | the loop over the infos of the sender gives the response to the first path that waits for it, in these plain terms, and a timeout to the others |
| IterativeLookup.IterativeLookup.HandleFindNodeTimeout | src/common/IterativeLookup.cc:611-648 | the address becomes dead, and nobody visited, assured, pinged or a sibling; the lookup ends, starts again or has less work left |
| IterativeLookup.IterativeLookup.TakeTimeout | src/common/IterativeLookup.cc:619-646 | the same before the stop rule is asked |
| IterativeLookup.IterativeLookup.HandlePingResponse | src/common/IterativeLookup.cc:513-517 | the sender, and nobody else, becomes assured and is offered to the siblings; the measure on pings decreases |
| IterativeLookup.IterativeLookup.HandlePingTimeout | src/common/IterativeLookup.cc:605-609 | an unanswered ping lowers the measure on pings and changes no node's standing |
| IterativeLookup.QueryIsNew | src/common/IterativeLookup.cc:1077-1095 | a hop that is not marked has a key that its path never queried |
| IterativeLookup.QueryKeepsBooked | src/common/IterativeLookup.cc:1083-1087 | pendingRpcs of every unfinished path stays the number of its infos when a query is registered |
| IterativeLookup.TakeInfo | src/common/IterativeLookup.cc:534-571 | it stays so when an info is handled |
| IterativeLookup.NoRpcsAllFinished | src/common/IterativeLookup.cc:324-326 | no path is ever stuck: when no RPC is out, all paths have finished |
| IterativeLookup.AddedHopsStep | src/common/IterativeLookup.cc:823-833 | the hops and the count of new ones after a prefix of a response, one node further |
| IterativeLookup.RunLookup | src/common/IterativeLookup.cc:131-717 | termination, authenticity and result: whatever order of answers and timeouts a scheduler picks, with whatever content, the lookup ends after finitely many events, with its listener called once, nothing pending and at most retries + 1 starts; the result is sorted, without repetition and the numSiblings closest of exactly the nodes inserted by the events of the last attempt (the first ones for a single unverified path); if siblings are verified, every node of it has the address of the looking node, was named by its own answer, or has answered a query or a ping since that attempt began; if not, success comes with a nonempty result; without useAllParallelResponses and acceptLateSiblings no path takes two answers that it asked for at one step |
| IterativeLookup.AnyEvent | src/common/IterativeLookup.cc:498-648 | one event: visited and offered nodes become exactly what the event says, and only an answered ping makes its sender assured; a response is taken for the present step of an unfinished path or as the configuration allows, and if such a question comes first; only the path that takes it goes a step further |
| IterativeLookup.StepsGoOn | src/common/IterativeLookup.cc:759-774 | of the answers that one path takes, every one was asked for at a later step than those before, as long as neither all parallel nor late answers are wanted |
| Sha1Spec.ZeroBytesFewest | src/common/SHA1.cc:184-185 | the padding of section 5.1.1 of FIPS 180-4 has the fewest zero bytes |
| Sha1Spec.PaddedLength | src/common/SHA1.cc:182-187 | the padded length is a whole number of blocks |
| SHA1.SwapLittleEndian | src/common/SHA1.cc:25-27 | the byte swap of a word read in little-endian order is its big-endian value |
| SHA1.MacroFIsF | src/common/SHA1.cc:36-40 | the five macros compute the functions of section 4.1.1 of FIPS 180-4 |
| SHA1.MacroKIsK | src/common/SHA1.cc:36-40 | their constants are those of section 4.2.1 |
| SHA1.NextScheduleWord | src/common/SHA1.cc:32-33 | the 16-word ring buffer yields word i of the 80-word schedule of section 6.1.2 |
| SHA1.StoreScheduleWord | src/common/SHA1.cc:32-33 | writing it in place keeps the last 16 words of the schedule in the ring |
| Sha1Spec.WordBytesRoundTrip | src/common/SHA1.cc:189-191 | the bytes of a word, most significant first, are read back as the word |
| SHA1.BufferSumHolds | src/common/SHA1.cc:124 | the 32-bit sum tests for a full block correctly exactly if buffered and new bytes together are fewer than 2^32 |
| SHA1.BufferSumFails | src/common/SHA1.cc:124 | one buffered byte and 2^32 - 1 new ones: the test finds no block |
| SHA1.CSHA1.constructor | src/common/SHA1.cc:46-51 | an empty message |
| SHA1.CSHA1.Reset | src/common/SHA1.cc:60-71 | an empty message again |
| SHA1.CSHA1.ScheduleWord | src/common/SHA1.cc:25-33 | SHABLK0 and SHABLK give the schedule word of the round |
| SHA1.CSHA1.S_R | src/common/SHA1.cc:35-40 | one macro call is one round of section 6.1.2, with the roles of the variables rotated |
| SHA1.CSHA1.FiveRounds | src/common/SHA1.cc:79-99 | five calls with rotating roles are five rounds with fixed ones |
| SHA1.CSHA1.Transform | src/common/SHA1.cc:73-112 | the state becomes the compression of the block |
| SHA1.CSHA1.CountBytes | src/common/SHA1.cc:118-121 | two words with a carry count the bits modulo 2^64 |
| SHA1.CountMore | src/common/SHA1.cc:118-121 | the carry test and the high part are right for every length |
| SHA1.CSHA1.AbsorbBlocks | src/common/SHA1.cc:124-134 | all blocks that the data completes are hashed, and the rest is what remains |
| SHA1.CSHA1.Update | src/common/SHA1.cc:114-139 | the message grows by the data, and hashed blocks, buffer and counter agree with it |
| SHA1.CSHA1.FinalCount | src/common/SHA1.cc:177-180 | the eight bytes of the message length, most significant first |
| SHA1.CSHA1.AddPadding | src/common/SHA1.cc:182-187 | one byte 0x80 and the zero bytes of section 5.1.1, added one by one |
| SHA1.CSHA1.StoreDigest | src/common/SHA1.cc:189-191 | the digest is the state in big-endian order |
| SHA1.CSHA1.Final | src/common/SHA1.cc:173-201 | the digest is SHA-1 of the message |
| SHA1.HashChunks | src/common/SHA1.cc:114-201 | streaming theorem: however a message is split into updates, the result is the digest of section 6.1.2 on its padding |
| PeerStorage.SetAddrForOverlayId | src/common/PeerStorage.h:78-92 | the overlay's address is set, all other addresses and all bootstrapped flags stay, and so does the peer's vector |
| PeerStorage.GetIterForOverlayId | src/common/PeerStorage.h:59-66 | the first entry of the overlay, or the end |
| PeerStorage.BucketOf | src/common/PeerStorage.cc:76-86 | the loop over a peer's overlays gives the vector for type, bootstrapped anywhere and malicious |
| PeerStorage.SlotFreed | src/common/PeerStorage.cc:141-146 | popping the last slot or listing a hole keeps the free list exact and without repetition |
| PeerStorage.SlotTaken | src/common/PeerStorage.cc:107-118 | so does reusing the last listed hole or appending |
| PeerStorage.UsedCount | src/common/PeerStorage.cc:245 | the difference of the two sizes is the number of peers in the vector |
| PeerStorage.UnindexedIsInvalid | src/common/PeerStorage.cc:204-215 | a peer in the map and in no vector breaks the index |
| PeerStorage.PeerStorage.constructor | src/common/PeerStorage.h:116-161 | an empty storage whose index is in order |
| PeerStorage.PeerStorage.TakeSlot | src/common/PeerStorage.cc:105-118 | a hole is used again if there is one |
| PeerStorage.PeerStorage.InsertMapIteratorIntoVector | src/common/PeerStorage.cc:71-121 | an unindexed peer gets a slot in its vector, and map and slots are in bijection again |
| PeerStorage.PeerStorage.RemoveMapIteratorFromVector | src/common/PeerStorage.cc:123-149 | a peer leaves its vector, and the others stay in bijection with the slots |
| PeerStorage.PeerStorage.Insert | src/common/PeerStorage.cc:151-162 | a new peer is added and indexed; a known address changes nothing |
| PeerStorage.PeerStorage.Erase | src/common/PeerStorage.cc:164-169 | the peer leaves map and index |
| PeerStorage.PeerStorage.RegisterOverlay | src/common/PeerStorage.cc:171-184 | one address of one peer changes, and the index stays right without moving the peer |
| PeerStorage.PeerStorage.SetMalicious | src/common/PeerStorage.cc:186-195 | the flag is set and the peer indexed in its new vector |
| PeerStorage.PeerStorage.SetBootstrapped | src/common/PeerStorage.cc:197-218 | the flag of one overlay is set and the peer indexed anew; it fails exactly if the flag is to be set for an overlay the peer is not registered for, and then leaves the peer in no vector |
| PeerStorage.SkippedIffNotEligible | src/common/PeerStorage.cc:239-243 | looking at a vector's number decides for each of its peers whether the caller wants it |
| PeerStorage.PeerStorage.SumOffered | src/common/PeerStorage.cc:232-247 | the number of peers in the vectors that are not skipped |
| PeerStorage.PeerStorage.FindVector | src/common/PeerStorage.cc:253-268 | the walk ends in the vector that the number drawn falls into |
| PeerStorage.PeerStorage.Probe | src/common/PeerStorage.cc:270-277 | the cyclic search ends at the first used slot from the one drawn, with at most one turn |
| PeerStorage.NothingOffered | src/common/PeerStorage.cc:249-251 | the sum is zero only if nobody is eligible |
| PeerStorage.DrawnIsEligible | src/common/PeerStorage.cc:253-280 | whatever the draws, the result is a peer that the caller wants |
| PeerStorage.EveryEligiblePeerCanBeDrawn | src/common/PeerStorage.cc:253-280 | for every eligible peer there are draws in range that return it |
| PeerStorage.DrawnOnce | src/common/PeerStorage.cc:253-280 | two draws decide on one peer |
| PeerStorage.PeerStorage.GetRandomNode | src/common/PeerStorage.cc:220-281 | it terminates and returns nobody exactly if every peer is of another type, or has no bootstrapped overlay though one is needed, or is malicious though that is excluded; otherwise an eligible peer, in these plain terms, and the one that its two draws decide on |
| NeighborCache.InsertedLast | src/common/NeighborCache.cc:531-532 | an element for the current time goes to the end of the multimap |
| NeighborCache.MultimapInsertAt | src/common/NeighborCache.cc:531-532 | an insertion puts its element behind the last one that is not younger, and keeps all others in order |
| NeighborCache.SameSize | src/common/NeighborCache.cc:533 | map and multimap have the same size, as the assertions demand |
| NeighborCache.StartIsEarly | src/common/NeighborCache.cc:527-528 | lower_bound of an entry's insert time is never behind its element |
| NeighborCache.CleanedKeeps | src/common/NeighborCache.cc:501-521 | eviction keeps both indexes in agreement, takes the oldest elements first, and never a waiting or fresh entry |
| NeighborCache.CleanedSize | src/common/NeighborCache.cc:504-517 | nothing goes while the cache fits; otherwise it shrinks to half of its maximum, or stops above that at a front that waits or is fresh |
| NeighborCache.EntriesIfCleaned | src/common/NeighborCache.cc:510-515 | no context is lost by eviction |
| NeighborCache.OkIfMoved | src/common/NeighborCache.cc:524-534 | moving an element to the end and rewriting its entry keeps agreement and contexts |
| NeighborCache.OkIfAdded | src/common/NeighborCache.cc:501-521 | so does a new entry with the eviction it causes, and the new entry survives |
| NeighborCache.NeighborCache.constructor | src/common/NeighborCache.cc:74-83 | an empty cache |
| NeighborCache.NeighborCache.CleanupCache | src/common/NeighborCache.cc:501-521 | the k oldest elements leave map and multimap, k being 0 for a cache that fits, and otherwise all but half the maximum or all before a waiting or fresh front |
| NeighborCache.NeighborCache.UpdateEntry | src/common/NeighborCache.cc:524-534 | the scan finds the address before the end, and only that element moves, to the end |
| NeighborCache.NeighborCache.AddEntry | src/common/NeighborCache.cc:239-248 | a new entry is listed, eviction follows, the new entry is still there |
| NeighborCache.NeighborCache.InsertNodeContext | src/common/NeighborCache.cc:233-275 | a context is stored exactly if the node is asked already; otherwise the node counts as asked from now on, by a new entry with a zero time or by the old one with its time; the exception for leftover contexts is unreachable |
| NeighborCache.NeighborCache.SetNodeTimeout | src/common/NeighborCache.cc:289-323 | the entry times out now; each stored context with a listener, and nobody else, is called back with a timeout, once and in order, by its listener, id and context object |
| NeighborCache.NeighborCache.UpdateNode | src/common/NeighborCache.cc:326-418 | a positive time makes the entry valid with that time, or with the smaller one if it was valid; each stored context with a listener, and nobody else, is called back with the measured time, once and in order; other times change nothing |
| NeighborCache.NeighborCache.UpdateNcsInfo | src/common/NeighborCache.cc:421-454 | an entry moves to the end of the eviction order and keeps its insert time; a new one is unknown |
| NeighborCache.NeighborCache.GetNodeRtt | src/common/NeighborCache.cc:457-480 | a measurement or timeout that is rttExpirationTime old becomes unknown, anything else is answered as stored; without an entry the answer is zero and unknown; a valid time is never zero |
| NeighborCache.NeighborCache.QueryProx | src/common/NeighborCache.cc:991-1014 | the context is stored |
| NeighborCache.NeighborCache.SendQuery | src/common/NeighborCache.cc:967-971 | afterwards the node is asked and holds the context; a ping goes out exactly if it was not asked before |
| NeighborCache.NeighborCache.LookUp | src/common/NeighborCache.cc:877-973 | the answer and the choice to wait are those of Reply |
| NeighborCache.NeighborCache.GetProx | src/common/NeighborCache.cc:853-974 | a context is accepted exactly if its caller has to wait, at most one ping is out for a node that is asked, the node itself and unspecified nodes are special, and a disabled cache always lets wait |
| NeighborCache.NeighborCache.CallBack | src/common/NeighborCache.cc:312-320 | each context with a listener is called once, in order, with its id, its context object and the proximity |
| NeighborCache.CalledInOrder | src/common/NeighborCache.cc:312-320 | the calls stand at strictly increasing places among the contexts, each fits its context, and every context with a listener has its place |
| NeighborCache.CallbacksReachAll | src/common/NeighborCache.cc:312-320 | the calls that the code makes are of this kind, and all give the same proximity |
| NeighborCache.AskedMeansCalledBack | src/common/NeighborCache.cc:886-966 | query types are told to wait if and only if a call back will come; immediate types never get one, although AVAILABLE may answer WAITING |
| NeighborCache.AnswersByState | src/common/NeighborCache.cc:886-966 | the answer by what is known: a valid time but for QUERY, a timeout but for EXACT unless it is new, at most a prediction for an unknown node, a wait for a node being asked but for estimates |
| NeighborCache.NothingKnown | src/common/NeighborCache.cc:886-966 | of a node that is not cached nothing is answered: queries ask it, immediate types do not |
| NeighborCache.MeasuredUntilExpired | src/common/NeighborCache.cc:468-480 | a measured time is answered until it is rttExpirationTime old, and then the node counts as unknown |
| NeighborCache.WaitingEntryIs | src/common/NeighborCache.cc:233-275 | a caller that has to wait is the last context of its entry, which waits since it was asked first, and keeps its time and history |
| NeighborCache.DefaultsAre | src/common/NeighborCache.cc:882-884 | the default query types stand for the configured ones |
| NeighborCache.DefaultsAllowed | src/common/NeighborCache.cc:88-118 | the default types that the start accepts; others are an error |
| NeighborCache.MeasuredTwice | src/common/NeighborCache.cc:326-480 | a run: a node measured twice is answered with the smaller time until that expires, and is pinged again afterwards |
| NeighborCache.MeasuredIsMeasured | src/common/NeighborCache.cc:927-939 | an answered time is positive, except exactly for an estimate of a node that is asked and has not been measured yet |
| NeighborCache.EstimateWithoutMeasurement | src/common/NeighborCache.cc:927-939 | this happens in every enabled cache with every node that has just been asked: the estimate is zero |
| NeighborCache.UnaskedIsDropped | src/common/NeighborCache.cc:501-521 | for another node a full cache of any size drops its oldest entry, unless that one waits or is fresh, whatever contexts it has; one that is not full drops nothing |
| NeighborCache.NothingLost | src/common/NeighborCache.cc:861-864 | an enabled cache has either taken every accepted context out of its entry and called it back, once and in order, or still stores it, in every reachable state |
| NeighborCache.ContextsAreLostIffDisabled | src/common/NeighborCache.cc:861-864 | a run over one node more than any cache holds, for every configuration: the first context is lost exactly if the cache is disabled, and the answer to its ping then reaches nobody |
| RecursiveRouting.ChooseNextHop | src/common/BaseOverlay.cc:1551-1565 | the next hop is no visited node, this node only if it is a sibling, and another one only if it is neither the last hop nor the source; all candidates before it fail this, and there is none exactly if all fail it |
| RecursiveRouting.SendToKey | src/common/BaseOverlay.cc:1411-1627 | a source route is followed; a keyed message goes to a lookup exactly for the two iterative types; otherwise it goes to the first acceptable candidate below the hop maximum, is dropped exactly if there is none or the maximum is reached, and is handled by the node itself exactly if that is the first one |
| RecursiveRouting.HandleRoute | src/common/BaseOverlay.cc:904-1042 | the sender is noted under source routing or recordRoute, one entry of a source route is consumed; a keyed message is delivered exactly by a sibling, and a keyless one exactly at the end of its route |
| RecursiveRouting.SendOwn | src/common/BaseOverlay.cc:1432-1624 | at its source a message is sent on, delivered, dropped or fails as the answers say; it is recorded there exactly if the source hands it to itself |
| RecursiveRouting.PathIsShort | src/common/BaseOverlay.cc:1545-1565 | a loop-free path has no more nodes than the network |
| RecursiveRouting.Arrive | src/common/BaseOverlay.cc:904-1042 | one hop: the record grows by the sender, and the message is sent on or ends as the answers of the node say |
| RecursiveRouting.GoesElsewhere | src/common/BaseOverlay.cc:1545-1565 | the next hop is not the node, not the last hop, not recorded, and not the source of a message from elsewhere |
| RecursiveRouting.OneWay | src/common/BaseOverlay.cc:1487-1624 | the answers decide on the way of a message: all trails are prefixes of one |
| RecursiveRouting.Route | src/common/BaseOverlay.cc:904-1627 | the way of a message, its end and its record are those that answers and loop detection decide on, within hopCountMax forwards; with recorded routes no node gets it twice, whatever the protocols answer, so it ends within min(hopCountMax, number of nodes - 1) forwards; the same without recorded routes for three nodes or three hops |
| RecursiveRouting.LoopsIff | src/common/BaseOverlay.cc:1545-1565 | some answers make a message come to a node twice exactly without recorded routes, from four nodes and four hops on |
| RecursiveRouting.LoopIfNotRecorded | src/common/BaseOverlay.cc:1545-1565 | a run into such a loop, for any four nodes |
| RecursiveRouting.SourceRoute | src/common/BaseRpc.cc:577-590 | the visited hops in reverse, or the caller |
| RecursiveRouting.ReversedAppends | src/common/BaseRpc.cc:582-584 | building the route from the back is reversal |
| RecursiveRouting.FollowSourceRoute | src/common/BaseOverlay.cc:922-952 | a source route is followed exactly, one entry per hop, and delivers at its end, with the path recorded |
| RecursiveRouting.RoundTrip | src/common/BaseRpc.cc:577-594 | under source routing the reply to a delivered request, for any number of siblings, goes back over the nodes of the request in the opposite order and is delivered at the node that asked; it takes one more hop, from that node to itself, exactly if the source handed the request to itself at first |
| RecursiveRouting.ReplyTakesOneHopMore | src/common/BaseOverlay.cc:1604-1612 | for every number of siblings but one there is such a request |
| BaseRpc.SpentIs | src/common/BaseRpc.cc:365-370 | all timeouts of a call together: rto * (2^k - 1) under backoff, rto * k without |
| BaseRpc.PendingInTime | src/common/BaseRpc.cc:344-375 | a registered call is within its deadline |
| BaseRpc.TimerFires | src/common/BaseRpc.cc:344-380 | a timeout leads to a retry with the next timer, or to the end after exactly all retries, exactly at the deadline |
| BaseRpc.OkIfRegistered | src/common/BaseRpc.cc:253-258 | a new call keeps: every call ever made is registered under one nonce or has one ending |
| BaseRpc.OkIfEnded | src/common/BaseRpc.cc:335-337 | so does an ending |
| BaseRpc.BaseRpc.constructor | src/common/BaseRpc.cc:92-105 | no call is registered |
| BaseRpc.BaseRpc.Elapse | src/common/BaseRpc.cc:256-258 | time may pass up to the next timer |
| BaseRpc.BaseRpc.RegisteredInTime | src/common/BaseRpc.cc:344-375 | at any time a registered call was sent at most retries + 1 times and is at most rto * (2^(retries+1) - 1), or rto * (retries + 1), old |
| BaseRpc.BaseRpc.SendRpcCall | src/common/BaseRpc.cc:173-274 | a call is registered under a free nonce, sent once, with its timeout or, if none is given, the configured default of its transport |
| BaseRpc.BaseRpc.CancelRpcMessage | src/common/BaseRpc.cc:278-290 | a registered call gets its one ending; an unknown nonce changes nothing |
| BaseRpc.BaseRpc.HandleTimeout | src/common/BaseRpc.cc:339-395 | a retry with one retry less and a doubled or equal timeout, or the one ending; the neighbor cache hears of the end exactly for UDP, or for a specified node and no key |
| BaseRpc.BaseRpc.HandleResponse | src/common/BaseRpc.cc:397-477 | a response ends its call, once, exactly if the call was for a key, or to a node whose key is unknown or the responder's; any other one changes nothing, not even the timer |
| BaseRpc.BaseRpc.InternalHandleRpcMessage | src/common/BaseRpc.cc:293-489 | unknown nonces, and responses of other nodes than the called one, change nothing; everything else is a retry or an ending that was not there before |
| BaseRpc.Unanswered | src/common/BaseRpc.cc:344-395 | a call that nobody answers is sent exactly retries + 1 times and times out exactly at the bound |
| BaseRpc.AnsweredByItsKey | src/common/BaseRpc.cc:411-429 | a call to a known node outlives any number of responses from other keys, with its timer, and ends with the first response from that node |
| Limbs.Add | src/common/OverlayKey.cc:247-249 | limbs with a carry out are the sum |
| Limbs.Sub | src/common/OverlayKey.cc:256-258 | limbs with a borrow out are the difference |
| Limbs.MpnAddN | src/common/OverlayKey.cc:249 | the carry loop in place is Add, also for one array as both operands |
| Limbs.MpnSubN | src/common/OverlayKey.cc:258 | the borrow loop in place is Sub |
| Limbs.MpnCmp | src/common/OverlayKey.cc:806-811 | comparing from the top compares the numbers |
| Limbs.RightDivides | src/common/OverlayKey.cc:365 | the shift of limbs to the right divides |
| Limbs.LeftMultiplies | src/common/OverlayKey.cc:386 | the shift to the left multiplies, but for what it moves out |
| Limbs.MpnRShift | src/common/OverlayKey.cc:365 | the loop in place shifts every limb with the low bits of the next |
| Limbs.MpnLShift | src/common/OverlayKey.cc:386 | the loop from the top shifts every limb with the high bits of the one below |
| Limbs.TrimmedIs | src/common/OverlayKey.cc:799-802 | masking the top limb is the remainder modulo 2^keyLength |
| Limbs.ValueInjective | src/common/OverlayKey.cc:297-300 | limbs of one length are equal if their numbers are |
| Bitwise.CombineAt | src/common/OverlayKey.cc:306-337 | each bit of the exclusive or, or and and is that operation on the two bits at its position |
| Bitwise.BitAtIs | src/common/OverlayKey.cc:306-337 | bit k is what division by 2^k makes the lowest bit |
| Bitwise.OperatorsAdd | src/common/OverlayKey.cc:306-337 | the sum is the exclusive or plus twice the and, and also the or plus the and |
| Bitwise.CombineLimbsIs | src/common/OverlayKey.cc:306-337 | the three operators limb by limb are those of the numbers |
| Bitwise.CombineInPlace | src/common/OverlayKey.cc:310-312 | the loop in place combines every limb with the one of the other array |
| Bitwise.NotLimbsIs | src/common/OverlayKey.cc:343-345 | the complement of the limbs is the largest number minus the number |
| Bitwise.NotInPlace | src/common/OverlayKey.cc:343-345 | the loop in place is NotLimbs |
| OverlayKey.OverlayKey.constructor | src/common/OverlayKey.cc:67-70 | an unspecified key |
| OverlayKey.OverlayKey.FromNumber | src/common/OverlayKey.cc:73-78 | a small number modulo 2^keyLength |
| OverlayKey.OverlayKey.Copy | src/common/OverlayKey.cc:120-123 | a copy with limbs of its own |
| OverlayKey.OverlayKey.Trim | src/common/OverlayKey.cc:799-802 | the number modulo 2^keyLength |
| OverlayKey.OverlayKey.AddAssign | src/common/OverlayKey.cc:247-253 | addition modulo 2^keyLength, also of a key to itself |
| OverlayKey.OverlayKey.SubAssign | src/common/OverlayKey.cc:256-262 | subtraction modulo 2^keyLength |
| OverlayKey.OverlayKey.Plus | src/common/OverlayKey.cc:265-270 | the sum as a new key |
| OverlayKey.OverlayKey.Minus | src/common/OverlayKey.cc:273-278 | the difference as a new key |
| OverlayKey.OverlayKey.CompareTo | src/common/OverlayKey.cc:806-811 | the sign of the difference; fails exactly for unspecified keys |
| OverlayKey.OverlayKey.CombineWith | src/common/OverlayKey.cc:306-337 | exclusive or, or and and of the numbers, which stay below 2^keyLength |
| OverlayKey.OverlayKey.Complement | src/common/OverlayKey.cc:340-349 | -1 minus the number, modulo 2^keyLength |
| OverlayKey.OverlayKey.ShiftRight | src/common/OverlayKey.cc:352-370 | division by 2^num |
| OverlayKey.OverlayKey.ShiftLeft | src/common/OverlayKey.cc:373-391 | multiplication by 2^num modulo 2^keyLength |
| OverlayKey.ShiftedRight | src/common/OverlayKey.cc:362-365 | moving limbs and then bits is one shift to the right |
| OverlayKey.ShiftedLeft | src/common/OverlayKey.cc:383-386 | moving limbs and then bits is one shift to the left on the ring |
| OverlayKey.BitRange | src/common/OverlayKey.cc:437-439 | a range of at most 32 bits is found in two neighbouring limbs |
| OverlayKey.MixedIs | src/common/OverlayKey.cc:455-493 | a limb that is split at a bit position splits the whole number there |
| OverlayKey.DrawBelow | src/common/OverlayKey.cc:458-467 | the masked limb and the loop over the lower limbs replace the bits below the position |
| OverlayKey.DrawAbove | src/common/OverlayKey.cc:477-489 | the masked limb and the downward loop replace the bits from the position on |
| OverlayKey.PrefixIs | src/common/OverlayKey.cc:477-491 | cutting the drawn key to the ring keeps the bits below the position and cuts the drawn ones |
| OverlayKey.OverlayKey.RandomSuffix | src/common/OverlayKey.cc:455-471 | the bits from pos on are those of the key, the bits below are those drawn; nothing leaves the ring |
| OverlayKey.OverlayKey.RandomPrefix | src/common/OverlayKey.cc:474-493 | the bits below pos are those of the key, the others those drawn, modulo 2^keyLength |
| OverlayKey.OverlayKey.GetBitRange | src/common/OverlayKey.cc:424-440 | the bits p to p + n - 1 of the number; fails exactly beyond the key or for more than 32 |
| OverlayKey.OverlayKey.Log2 | src/common/OverlayKey.cc:524-544 | the position of the most significant bit, -1 exactly for zero |
| OverlayKey.PowerOfTwo | src/common/OverlayKey.cc:670-683 | 2^exponent; fails exactly for an exponent beyond the key |
| OverlayKey.LogOfPowerOfTwo | src/common/OverlayKey.cc:524-544 | log_2(pow2(e)) == e |
| OverlayKey.OverlayKey.IsBetween | src/common/OverlayKey.cc:553-565 | specified keys with 0 < d(A, x) < d(A, B) clockwise; all but A itself if A == B |
| OverlayKey.OverlayKey.IsBetweenR | src/common/OverlayKey.cc:568-580 | specified keys with 0 < d(A, x) <= d(A, B); A alone if A == B |
| OverlayKey.OverlayKey.IsBetweenL | src/common/OverlayKey.cc:583-595 | specified keys with d(A, x) < d(A, B); A alone if A == B |
| OverlayKey.OverlayKey.IsBetweenLR | src/common/OverlayKey.cc:598-610 | specified keys with d(A, x) <= d(A, B) |
| OverlayKey.IntervalsTurn | src/common/OverlayKey.cc:553-610 | adding one constant to all keys changes none of the four intervals |
| OverlayKey.RingSplits | src/common/OverlayKey.cc:568-595 | for A != B every key is in exactly one of (A, B] and (B, A], and in exactly one of [A, B) and [B, A) |
| OverlayKey.HornerOfDigits | src/common/OverlayKey.cc:174-187 | the digits of a number give the number |
| OverlayKey.OverlayKey.ToString | src/common/OverlayKey.cc:163-204 | the digits of the number, most significant first; fails exactly for other bases and, in base 16, for a specified key that is not made of whole digits |
| OverlayKey.OverlayKey.ToHex | src/common/OverlayKey.cc:174-181 | the loop in base 16 |
| OverlayKey.OverlayKey.ToBinary | src/common/OverlayKey.cc:182-187 | the loop in base 2 |
| OverlayKey.MpnSetStr | src/common/OverlayKey.cc:114-115 | the limbs get the number of the digits |
| OverlayKey.FromString | src/common/OverlayKey.cc:92-117 | the number of the digits modulo 2^keyLength; fails exactly for a bad base or character |
| OverlayKey.ReadBack | src/common/OverlayKey.cc:92-117 | parsing what a key is written as gives the key |
| Comparator.KeyStdDistance | src/common/Comparator.h:82-86 | the absolute difference |
| Comparator.StdDistance | src/common/Comparator.h:82-86 | the same on limb arrays |
| Comparator.XorDistance | src/common/Comparator.h:102-106 | XOR on limb arrays |
| Comparator.RingDistance | src/common/Comparator.h:123-133 | the shorter way round, on limb arrays |
| Comparator.CwRingDistance | src/common/Comparator.h:150-154 | the way clockwise, on limb arrays |
| Comparator.XorIsMetric | src/common/Comparator.h:92-107 | symmetry, identity and triangle inequality |
| Comparator.XorIsUnidirectional | src/common/Comparator.h:92-107 | for each key and distance there is exactly one key at that distance |
| Comparator.RingIsMetric | src/common/Comparator.h:113-134 | symmetry, identity and triangle inequality; no distance is more than half the ring |
| Comparator.CwRingAddsUp | src/common/Comparator.h:140-155 | there and back is one turn, two legs are the whole way or a turn more, and one key is at each distance |
| Comparator.CompareIsOrder | src/common/Comparator.h:241-244 | every distance comparator is a total preorder; those of XOR and clockwise distance tell all keys apart (which one is closer: CloserIsLess) |
| Comparator.DistancesAre | src/common/Comparator.h:82-154 | the four distances in plain terms: difference, bits that differ, shorter way, clockwise way |
| Comparator.CloserIsLess | src/common/Comparator.h:241-244 | the comparator is negative exactly if the first key is closer to the relative key, and positive exactly if the second one is |
| Comparator.RelativeKeyIsFirst | src/common/Comparator.h:241-244 | the relative key is before every other key |
| Comparator.NearestIsFirst | src/common/Comparator.h:241-244 | a vector ranked by the comparator has the nearest key offered first |
| Comparator.LookupRanksAlike | src/common/Comparator.h:241-244 | the vectors of a lookup are ranked by the same comparator |
| Comparator.TiesAreMirrored | src/common/Comparator.h:241-244 | the other two tie exactly for mirrored keys |
| Comparator.TiesThroughInaccuracy | src/common/Comparator.h:297-305 | ties of proximities are not transitive, exactly through one that is not accurate enough between two that differ |
| Comparator.OrderIfAccurate | src/common/Comparator.h:297-305 | the proximity comparator orders a set exactly if all are accurate enough or the accurate ones are equal |
| Comparator.NearerIsBetter | src/common/Comparator.h:297-305 | the nearer one of two accurate proximities gets -1, the farther one 1, and 0 is the answer to anything else |
| Comparator.PrIsLexicographic | src/common/Comparator.h:363-377 | distances decide first, and accurate proximities between equal distances |

## Left out

- OMNeT++ and INET: messages, gates, parameters, sockets, display and statistics; memory is managed by Dafny.
- Churn, coordinate systems (Vivaldi, NPS) and other code over floating point; a coordinate-based proximity is a parameter of NeighborCache.
- TreeManagement: the list of children and its timers; nothing about them is decided by this code when messages are lost.
- TreeManagement.WellSpaced: the theorems need keys that are 2 apart, other than zero and 2 away from the upper end; AdjacentKeysFail, EndKeysFail and BorderKeyFails show that each of the three is needed.
- NodeVector.BaseKeySortedVector.Add: not for unbounded vectors with proximity zones, whose displaced entries are never added again; keys and addresses that identify elements are one function of the element.
- NodeVector.BaseKeySortedVector.InsertBeforeEntry: iterators are positions; the comparison of an iterator with the end after an insertion reads as "nothing was inserted".
- IterativeLookup: exhaustive routing, majoritySiblings, failedNodeRpcs, the mode without merging, abortLookup; nonces, the sources of old next hops, and extension objects of messages.
- IterativeLookup.IterativeLookup.CreatePath: paths are values in a sequence and are named by their position there, so sharing of path objects is not modelled.
- IterativeLookup.IterativeLookup.StartLocally: the local answers are a function of the retries left; all nodes that anybody names form a finite set.
- IterativeLookup.RunLookup: the node that looks up counts as authentic by its address; that an answer comes from the address it names is the network's matter.
- IterativeLookup.IterativeLookup.Ping: ping ids are arbitrary and may collide, as the random ids of the code may.
- ConvexHull.Sort: list.sort is a function that returns the sorted points; the points are pairs of reals.
- SHA1.CSHA1.Update: for buffered and new bytes of together fewer than 2^32; BufferSumHolds shows that the code's test fails for all others. Little-endian machines only.
- SHA1.CSHA1.Final: for messages of fewer than 2^64 bits, as the standard defines; wiping of variables, files and reports are not modelled.
- PeerStorage: a peer's address stands for its iterator; the vector of vectors for single overlays, which the code does not fill.
- PeerStorage.PeerStorage.GetRandomNode: the random numbers are two functions of the number of choices; nothing is said about how they are distributed.
- NeighborCache: hits and misses, the closest nodes, coordinates, mean and variance of times, and timeouts derived from them.
- NeighborCache.NeighborCache.UpdateNode: callbacks are returned in their order, after the entry has been written; what a listener does in them is another event.
- NeighborCache.NeighborCache.SetNodeTimeout: the same.
- RecursiveRouting: acknowledged hops, the forward call of the common API, malicious nodes, recursiveRoutingHook (always true), and the answer to a stuck FindNodeCall, which counts as dropped.
- RecursiveRouting.SendToKey: a message for iterative routing is handed over to a lookup, which is IterativeLookup's matter.
- RecursiveRouting.Route: node addresses do not change on the way, as they would behind a NAT.
- BaseRpc: source routes inside a destination, cancelAllRpcs, the content of messages, and the calls of listeners, which happen once at each ending.
- BaseRpc.BaseRpc.SendRpcCall: the loop that draws a free nonce is not modelled, only its result.
- OverlayKey: setBit, the constructor of random keys, hashing, sharedPrefixLength and with it the prefix metric.
- OverlayKey.OverlayKey.RandomSuffix: positions below keyLength, of specified keys; others may reach beyond the limbs in use.
- OverlayKey.OverlayKey.RandomPrefix: the same.
- OverlayKey.OverlayKey.ShiftRight: not for multiples of 32 within the key, for which the called GMP function is undefined; GMP's functions are the loops of Limbs.
- OverlayKey.OverlayKey.ShiftLeft: the same.
- OverlayKey.OverlayKey.GetBitRange: not for empty ranges, for which the shift of the mask is undefined.
- OverlayKey.FromString: for strings whose number fits into the limbs and that are not empty, as mpn_set_str demands.
- OverlayKey.OverlayKey.CombineWith: the operand has to be specified; the limbs of an unspecified key have no meaning.
- Comparator: the prefix metric and the comparators built on it; KademliaPRComparator is modelled on the distances that its metric has computed.
