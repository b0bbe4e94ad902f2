/** Recursive routing, hop by hop (src/common/BaseOverlay.cc), and the way back of a reply over the nodes that its
    request visited (src/common/BaseRpc.cc). What the overlay protocols answer is arbitrary. */
module RecursiveRouting {
  import opened Wrappers

  type Address = nat

  const UNSPECIFIED: Address := 0

  datatype RoutingType = ITERATIVE | EXHAUSTIVE_ITERATIVE | SEMI_RECURSIVE | FULL_RECURSIVE | RECURSIVE_SOURCE

  datatype Overlay = Overlay(thisNode: Address, recordRoute: bool, hopCountMax: int)

  /** The answers of a protocol to the questions of one event: for a number of siblings, the candidates for the next
      hop, whether the node is a sibling for the message's key, and whether it is unsure of that. */
  datatype Answers = Answers(findNode: nat -> seq<Address>, isSibling: nat -> bool, err: nat -> bool)

  datatype Outcome = Sent(to: Address) | Delivered | Dropped | LookedUp | Thrown

  ghost predicate Specified(s: seq<Address>) {
    UNSPECIFIED !in s
  }

  class BaseRouteMessage {
    const srcNode: Address
    const keyed: bool  // whether the destination key is specified
    const routingType: RoutingType
    var hopCount: int
    var visitedHops: seq<Address>
    var nextHops: seq<Address>

    constructor (srcNode: Address, keyed: bool, routingType: RoutingType)
      ensures this.srcNode == srcNode && this.keyed == keyed && this.routingType == routingType
      ensures hopCount == 0 && visitedHops == nextHops == []
    {
      this.srcNode, this.keyed, this.routingType := srcNode, keyed, routingType;
      hopCount, visitedHops, nextHops := 0, [], [];
    }
  }

  /** Whether a node that handles the message notes who sent it. */
  predicate Records(o: Overlay, m: BaseRouteMessage) {
    m.routingType == RECURSIVE_SOURCE || o.recordRoute
  }

  /** Loop detection lets a candidate through. */
  predicate Acceptable(o: Overlay, lastHop: Address, visited: seq<Address>, srcNode: Address, isSibling: bool,
                       c: Address) {
    && !(lastHop == c && c != o.thisNode)
    && c !in visited
    && !(c == srcNode && o.thisNode != srcNode)
    && !(c == o.thisNode && !isSibling)
  }

  ghost predicate FirstAcceptable(o: Overlay, lastHop: Address, visited: seq<Address>, srcNode: Address,
                                  isSibling: bool, candidates: seq<Address>, c: Address)
  {
    exists i :: 0 <= i < |candidates| && candidates[i] == c && Acceptable(o, lastHop, visited, srcNode, isSibling, c)
                && forall j :: 0 <= j < i ==> !Acceptable(o, lastHop, visited, srcNode, isSibling, candidates[j])
  }

  /** Why a candidate is passed over: the message came from it, it has been there, it started there, or it is the node
      itself, which does not answer for the key. */
  ghost predicate PassedOver(thisNode: Address, lastHop: Address, visited: seq<Address>, srcNode: Address,
                             isSibling: bool, c: Address)
  {
    c in visited || (if c == thisNode then !isSibling else c == lastHop || c == srcNode)
  }

  /** The loop over the candidates takes the first one that loop detection lets through. */
  method ChooseNextHop(o: Overlay, lastHop: Address, visited: seq<Address>, srcNode: Address, isSibling: bool,
                       candidates: seq<Address>)
      returns (nextHop: Address)
    requires Specified(candidates)
    ensures nextHop == UNSPECIFIED <==> forall c :: c in candidates ==>
            !Acceptable(o, lastHop, visited, srcNode, isSibling, c)
    ensures nextHop != UNSPECIFIED ==>
              FirstAcceptable(o, lastHop, visited, srcNode, isSibling, candidates, nextHop)
    ensures nextHop == UNSPECIFIED <==> forall c :: c in candidates ==>
            PassedOver(o.thisNode, lastHop, visited, srcNode, isSibling, c)
    ensures nextHop == o.thisNode != UNSPECIFIED ==> isSibling && nextHop !in visited
    ensures nextHop !in {o.thisNode, UNSPECIFIED} ==> nextHop !in visited + [lastHop, srcNode]
    ensures nextHop != UNSPECIFIED ==>
              exists i | 0 <= i < |candidates| && candidates[i] == nextHop ::
                forall c :: c in candidates[..i] ==> PassedOver(o.thisNode, lastHop, visited, srcNode, isSibling, c)
  {
    nextHop := UNSPECIFIED;
    var index := 0;
    while nextHop == UNSPECIFIED && index < |candidates|
      invariant index <= |candidates|
      invariant nextHop == UNSPECIFIED ==>
                  forall j :: 0 <= j < index ==> !Acceptable(o, lastHop, visited, srcNode, isSibling, candidates[j])
      invariant nextHop != UNSPECIFIED ==> FirstAcceptable(o, lastHop, visited, srcNode, isSibling, candidates, nextHop)
    {
      assert candidates[index] in candidates;
      nextHop := candidates[index];
      if !Acceptable(o, lastHop, visited, srcNode, isSibling, nextHop) {
        nextHop := UNSPECIFIED;
      }
      index := index + 1;
    }
  }

  /** A message leaves the node, and a hop counts unless it is to the node itself. */
  method SendRouteMessage(o: Overlay, m: BaseRouteMessage, dest: Address) returns (r: Outcome)
    modifies m`hopCount
    ensures r == Sent(dest)
    ensures m.hopCount == old(m.hopCount) + if dest != o.thisNode then 1 else 0
  {
    if dest != o.thisNode {
      m.hopCount := m.hopCount + 1;
    }
    return Sent(dest);
  }

  /** What a node that does not answer for the key does with a message that is routed by its key. */
  ghost predicate PassedOn(o: Overlay, m: BaseRouteMessage, lastHop: Address, visited: seq<Address>, hopCount: int,
                           isSibling: bool, candidates: seq<Address>, r: Outcome)
  {
    && (r.Sent? ==> r.to != o.thisNode && FirstAcceptable(o, lastHop, visited, m.srcNode, isSibling, candidates, r.to)
                    && hopCount < o.hopCountMax)
    && (r.Dropped? <==> hopCount >= o.hopCountMax
                        || forall c :: c in candidates ==> !Acceptable(o, lastHop, visited, m.srcNode, isSibling, c))
    && (r.Sent? || r.Dropped?)
  }

  predicate Recursive(m: BaseRouteMessage) {
    m.routingType != ITERATIVE && m.routingType != EXHAUSTIVE_ITERATIVE
  }

  /** The node itself is the first candidate that loop detection lets through. */
  ghost predicate ItsOwnTurn(o: Overlay, m: BaseRouteMessage, lastHop: Address, visited: seq<Address>, hopCount: int,
                             isSibling: bool, candidates: seq<Address>)
  {
    hopCount < o.hopCountMax && FirstAcceptable(o, lastHop, visited, m.srcNode, isSibling, candidates, o.thisNode)
  }

  ghost predicate Unrouted(sourceRoute: seq<Address>) {
    sourceRoute == [] || sourceRoute[0] == UNSPECIFIED
  }

  function Noted(o: Overlay, m: BaseRouteMessage, lastHop: Address): seq<Address> {
    if Records(o, m) then [lastHop] else []
  }

  /** A message is sent along its source route, or to the next hop for its key. A node that is the next hop itself
      handles the message as if it had arrived. */
  method SendToKey(o: Overlay, m: BaseRouteMessage, lastHop: Address, numSiblings: nat, sourceRoute: seq<Address>,
                   a: Answers)
      returns (r: Outcome)
    requires m.nextHops == [] && forall n :: Specified(a.findNode(n))
    modifies m
    ensures !Unrouted(sourceRoute) ==>
            r == Sent(sourceRoute[0]) && m.nextHops == sourceRoute && m.visitedHops == old(m.visitedHops)
    ensures Unrouted(sourceRoute) ==>
            m.nextHops == [] && (!m.keyed ==> r == Thrown) && (m.keyed && !Recursive(m) ==> r == LookedUp)
    ensures r == LookedUp <==> Unrouted(sourceRoute) && m.keyed && m.routingType in {ITERATIVE, EXHAUSTIVE_ITERATIVE}
    ensures Unrouted(sourceRoute) && (!m.keyed || !Recursive(m)) ==> m.visitedHops == old(m.visitedHops)
    ensures Unrouted(sourceRoute) && m.keyed && Recursive(m) ==>
              var itsOwnTurn :=
                  ItsOwnTurn(o, m, lastHop, old(m.visitedHops), old(m.hopCount), a.isSibling(numSiblings),
                             a.findNode(numSiblings));
              if !itsOwnTurn then
                m.visitedHops == old(m.visitedHops)
                && PassedOn(o, m, lastHop, m.visitedHops, old(m.hopCount), a.isSibling(numSiblings),
                            a.findNode(numSiblings), r)
              else if a.err(numSiblings) then
                m.visitedHops == old(m.visitedHops) && r == Thrown
              else
                m.visitedHops == old(m.visitedHops) + Noted(o, m, lastHop) && (a.isSibling(1) <==> r.Delivered?)
                && (!a.isSibling(1) ==>
                    PassedOn(o, m, lastHop, m.visitedHops, old(m.hopCount), false, a.findNode(1), r))
    ensures m.hopCount == old(m.hopCount) + if r.Sent? && r.to != o.thisNode then 1 else 0
    decreases if a.isSibling(numSiblings) then 2 else 0
  {
    if !m.keyed && !(|sourceRoute| != 0 && sourceRoute[0] != UNSPECIFIED) {
      return Thrown;
    }
    if |sourceRoute| != 0 && sourceRoute[0] != UNSPECIFIED {
      m.nextHops := sourceRoute;
      r := SendRouteMessage(o, m, sourceRoute[0]);
      return;
    }
    if !Recursive(m) {
      return LookedUp;
    }
    var candidates := a.findNode(numSiblings);
    if |candidates| == 0 || m.hopCount >= o.hopCountMax {
      return Dropped;
    }
    var isSibling := a.isSibling(numSiblings);
    var nextHop := ChooseNextHop(o, lastHop, m.visitedHops, m.srcNode, isSibling, candidates);
    if nextHop == UNSPECIFIED {
      return Dropped;
    }
    if nextHop == o.thisNode {
      if isSibling && !a.err(numSiblings) {
        r := HandleRoute(o, m, lastHop, a);
        return;
      }
      return Thrown;
    }
    r := SendRouteMessage(o, m, nextHop);
  }

  /** A message arrives: the sender is noted, the first entry of a source route is consumed, and the message is
      delivered or sent on. */
  method HandleRoute(o: Overlay, m: BaseRouteMessage, lastHop: Address, a: Answers) returns (r: Outcome)
    requires forall n :: Specified(a.findNode(n))
    modifies m
    ensures |old(m.nextHops)| >= 2 && old(m.nextHops)[1] != UNSPECIFIED ==>
              r == Sent(old(m.nextHops)[1]) && m.nextHops == old(m.nextHops)[1..]
                  && m.visitedHops == old(m.visitedHops) + [lastHop]
    ensures |old(m.nextHops)| == 1 && !m.keyed ==>
              r == Delivered && m.nextHops == [] && m.visitedHops == old(m.visitedHops) + [lastHop]
    ensures old(m.nextHops) == [] && m.keyed ==>
              m.nextHops == [] && m.visitedHops == old(m.visitedHops) + Noted(o, m, lastHop)
    ensures old(m.nextHops) == [] && m.keyed ==>
              m.visitedHops == old(m.visitedHops)
                               + if m.routingType != RECURSIVE_SOURCE && !o.recordRoute then [] else [lastHop]
    ensures r == LookedUp ==> m.routingType in {ITERATIVE, EXHAUSTIVE_ITERATIVE}
    ensures old(m.nextHops) == [] && m.keyed ==> (a.isSibling(1) <==> r.Delivered?)
    ensures old(m.nextHops) == [] && m.keyed && !a.isSibling(1) && Recursive(m) ==>
              PassedOn(o, m, lastHop, m.visitedHops, old(m.hopCount), false, a.findNode(1), r)
    ensures m.hopCount == old(m.hopCount) + if r.Sent? && r.to != o.thisNode then 1 else 0
    ensures old(m.nextHops) == [] && !m.keyed ==> r.Delivered?
    ensures old(m.nextHops) == [] && m.keyed && !a.isSibling(1) && !Recursive(m) ==> r == LookedUp
    decreases if |m.nextHops| > 0 then 3 else 1
  {
    var sourceRoute := [];
    if |m.nextHops| > 0 || Records(o, m) {
      m.visitedHops := m.visitedHops + [lastHop];
      if |m.nextHops| > 0 {
        sourceRoute := m.nextHops[1..];
        m.nextHops := [];
      }
    }
    if |sourceRoute| == 0 && (!m.keyed || a.isSibling(1)) {
      return Delivered;
    }
    r := SendToKey(o, m, lastHop, 1, sourceRoute, a);
  }

  // ----- whole runs

  /** A message that is routed by its key through a network of nodes with the same parameters. */
  datatype Journey = Journey(nodes: set<Address>, srcNode: Address, routingType: RoutingType, recordRoute: bool,
                             hopCountMax: nat,
                             numSiblings: nat)

  ghost predicate GoodJourney(j: Journey) {
    && j.srcNode in j.nodes && UNSPECIFIED !in j.nodes
    && j.routingType != ITERATIVE && j.routingType != EXHAUSTIVE_ITERATIVE
  }

  predicate Recorded(j: Journey) {
    j.routingType == RECURSIVE_SOURCE || j.recordRoute
  }

  function At(j: Journey, node: Address): Overlay {
    Overlay(node, j.recordRoute, j.hopCountMax)
  }

  /** Every next hop that a protocol proposes is a node of the network. answers(k) are the answers of the node that the
      message is at after k forwards. */
  ghost predicate AnswersFrom(answers: nat -> Answers, nodes: set<Address>) {
    forall k, n :: Specified(answers(k).findNode(n)) && forall c :: c in answers(k).findNode(n) ==> c in nodes
  }

  /** The source finds itself first for the number of siblings that it sends with, and handles its own message. */
  predicate HandsToItself(j: Journey, a: Answers) {
    var candidates := a.findNode(j.numSiblings);
    j.hopCountMax > 0 && a.isSibling(j.numSiblings) && !a.err(j.numSiblings) && candidates != []
        && candidates[0] == j.srcNode
  }

  /** The source sends the message without handling it, for its own number of siblings. */
  predicate Direct(j: Journey, answers: nat -> Answers, trail: seq<Address>) {
    |trail| <= 1 && !HandsToItself(j, answers(0))
  }

  /** The recorded route of a message that has come along a trail. */
  function Record(j: Journey, answers: nat -> Answers, trail: seq<Address>): seq<Address>
    requires trail != []
  {
    if Recorded(j) then (if HandsToItself(j, answers(0)) then [j.srcNode] else []) + trail[..|trail| - 1] else []
  }

  function LastHop(trail: seq<Address>): Address
    requires trail != []
  {
    if |trail| == 1 then trail[0] else trail[|trail| - 2]
  }

  function Siblings(j: Journey, answers: nat -> Answers, trail: seq<Address>): nat {
    if Direct(j, answers, trail) then j.numSiblings else 1
  }

  /** The node at the end of the trail does not answer for the key and sends the message on to c. */
  ghost predicate GoesTo(j: Journey, answers: nat -> Answers, trail: seq<Address>, c: Address)
    requires trail != []
  {
    var a, node, n := answers(|trail| - 1), trail[|trail| - 1], Siblings(j, answers, trail);
    && (Direct(j, answers, trail) || !a.isSibling(1))
    && |trail| - 1 < j.hopCountMax && c != node
    && FirstAcceptable(At(j, node), LastHop(trail), Record(j, answers, trail), j.srcNode, a.isSibling(n), a.findNode(n),
                       c)
  }

  ghost predicate NoneAcceptable(j: Journey, answers: nat -> Answers, trail: seq<Address>)
    requires trail != []
  {
    var a, node, n := answers(|trail| - 1), trail[|trail| - 1], Siblings(j, answers, trail);
    forall c :: c in a.findNode(n) ==>
      !Acceptable(At(j, node), LastHop(trail), Record(j, answers, trail), j.srcNode, a.isSibling(n), c)
  }

  /** What becomes of a message at the last node of its trail: delivered where a node answers for the key, dropped after
      too many hops or without a next hop, and an error of a source that is not sure of its own answer. */
  ghost predicate Ends(j: Journey, answers: nat -> Answers, trail: seq<Address>, r: Outcome)
    requires trail != []
  {
    var a := answers(|trail| - 1);
    && (r.Delivered? <==> !Direct(j, answers, trail) && a.isSibling(1))
    && (r.Dropped? ==> |trail| - 1 >= j.hopCountMax || NoneAcceptable(j, answers, trail))
    && (r.Thrown? ==>
        |trail| == 1 && a.isSibling(j.numSiblings) && a.err(j.numSiblings) && a.findNode(j.numSiblings) != []
                      && a.findNode(j.numSiblings)[0] == j.srcNode)
    && (r.Delivered? || r.Dropped? || r.Thrown?)
  }

  ghost predicate IsTrail(j: Journey, answers: nat -> Answers, trail: seq<Address>) {
    && trail != [] && trail[0] == j.srcNode
    && (|trail| > 1 ==> var before := trail[..|trail| - 1];
                        IsTrail(j, answers, before) && GoesTo(j, answers, before, trail[|trail| - 1]))
  }

  /** The whole way of a message. */
  ghost predicate IsRun(j: Journey, answers: nat -> Answers, path: seq<Address>, r: Outcome) {
    IsTrail(j, answers, path) && Ends(j, answers, path, r)
  }

  lemma TrailStep(j: Journey, answers: nat -> Answers, trail: seq<Address>)
    requires IsTrail(j, answers, trail)
    ensures trail != [] && trail[0] == j.srcNode
    ensures |trail| > 1 ==> var before, c := trail[..|trail| - 1], trail[|trail| - 1];
              trail == before + [c] && IsTrail(j, answers, before) && GoesTo(j, answers, before, c)
  {
  }

  /** The node that a message goes to is none of those that loop detection knows. */
  lemma GoesElsewhere(j: Journey, answers: nat -> Answers, trail: seq<Address>, c: Address)
    requires trail != [] && trail[0] == j.srcNode && AnswersFrom(answers, j.nodes) && GoesTo(j, answers, trail, c)
    ensures c in j.nodes && c != trail[|trail| - 1] && c != LastHop(trail)
    ensures |trail| - 1 < j.hopCountMax && c !in Record(j, answers, trail)
    ensures trail[|trail| - 1] != j.srcNode ==> c != j.srcNode
  {
  }

  lemma {:induction false} TrailStays(j: Journey, answers: nat -> Answers, trail: seq<Address>)
    requires GoodJourney(j) && AnswersFrom(answers, j.nodes) && IsTrail(j, answers, trail)
    ensures |trail| - 1 <= j.hopCountMax && forall x :: x in trail ==> x in j.nodes
    ensures forall k :: 0 < k < |trail| ==> trail[k] != j.srcNode && trail[k] != trail[k - 1]
    ensures forall k :: 2 <= k < |trail| ==> trail[k] != trail[k - 2]
  {
    TrailStep(j, answers, trail);
    if |trail| > 1 {
      var before, c := trail[..|trail| - 1], trail[|trail| - 1];
      hide GoesTo, AnswersFrom, IsTrail, Record, GoodJourney;
      TrailStays(j, answers, before);
      GoesElsewhere(j, answers, before, c);
      assert |before| > 1 ==> before[|before| - 1] != j.srcNode && LastHop(before) == trail[|trail| - 3];
    }
  }

  lemma RecordedDiffers(j: Journey, answers: nat -> Answers, trail: seq<Address>, c: Address)
    requires trail != [] && Recorded(j) && c !in Record(j, answers, trail) && c != trail[|trail| - 1]
    ensures c !in trail
  {
    forall k | 0 <= k < |trail| ensures trail[k] != c {
      assert k < |trail| - 1 ==> trail[..|trail| - 1][k] in Record(j, answers, trail);
    }
  }

  lemma DistinctAppends(s: seq<Address>, c: Address)
    requires Distinct(s) && c !in s
    ensures Distinct(s + [c])
  {
  }

  lemma {:induction false} RecordedIsLoopFree(j: Journey, answers: nat -> Answers, trail: seq<Address>)
    requires GoodJourney(j) && AnswersFrom(answers, j.nodes) && IsTrail(j, answers, trail) && Recorded(j)
    ensures Distinct(trail)
  {
    if |trail| > 1 {
      var before, c := trail[..|trail| - 1], trail[|trail| - 1];
      RecordedIsLoopFree(j, answers, before);
      TrailStep(j, answers, trail);
      hide *;
      GoesElsewhere(j, answers, before, c);
      RecordedDiffers(j, answers, before, c);
      DistinctAppends(before, c);
    }
  }

  /** Nodes that are visited once are not more than there are nodes. */
  lemma PathIsShort(path: seq<Address>, nodes: set<Address>)
    requires Distinct(path) && forall x :: x in path ==> x in nodes
    ensures |path| <= |nodes|
  {
    DistinctCount(path);
    var rest := nodes - Elements(path);
    assert nodes == Elements(path) + rest;
  }

  /** A message that comes to a node twice has met three others since it left the source. */
  lemma LoopIsLong(j: Journey, answers: nat -> Answers, trail: seq<Address>)
    requires GoodJourney(j) && AnswersFrom(answers, j.nodes) && IsTrail(j, answers, trail) && !Distinct(trail)
    ensures j.hopCountMax >= 4 && |j.nodes| >= 4 && !Recorded(j)
  {
    if Recorded(j) {
      RecordedIsLoopFree(j, answers, trail);
    }
    TrailStays(j, answers, trail);
    var i, k :| 0 <= i < k < |trail| && trail[i] == trail[k];
    assert k != i + 1 && k != i + 2;
    PathIsShort([j.srcNode, trail[i], trail[i + 1], trail[i + 2]], j.nodes);
  }

  /** A protocol that knows one node. */
  function Only(c: Address): Answers {
    Answers(_ => [c], _ => false, _ => false)
  }

  function Nothing(): Answers {
    Answers(_ => [], _ => false, _ => false)
  }

  /** The nodes send the message on along a path and then know nobody. */
  function Along(path: seq<Address>): nat -> Answers {
    (k: nat) => if k + 1 < |path| then Only(path[k + 1]) else Nothing()
  }

  lemma {:induction false} LoopExists(j: Journey, b: Address, c: Address, d: Address)
      returns (path: seq<Address>, answers: nat -> Answers)
    requires GoodJourney(j) && !Recorded(j) && j.hopCountMax >= 4
    requires Distinct([j.srcNode, b, c, d]) && {b, c, d} <= j.nodes
    ensures path == [j.srcNode, b, c, d, b] && answers == Along(path) && !Distinct(path)
    ensures AnswersFrom(answers, j.nodes) && IsRun(j, answers, path, Dropped)
  {
    path := [j.srcNode, b, c, d, b];
    answers := Along(path);
    assert [j.srcNode, b, c, d][0] == j.srcNode && [j.srcNode, b, c, d][1] == b && [j.srcNode, b, c, d][2] == c
        && [j.srcNode, b, c, d][3] == d;
    assert path[1] == path[4];
    assert IsTrail(j, answers, path[..1]);
    for k := 1 to 5
      invariant IsTrail(j, answers, path[..k])
    {
      assert path[..k + 1][..k] == path[..k];
      assert answers(k - 1).findNode(1) == answers(k - 1).findNode(j.numSiblings) == [path[k]];
      assert [path[k]][0] == path[k];
      hide IsTrail;
      assert GoesTo(j, answers, path[..k], path[k]);
    }
    assert path[..5] == path;
  }

  lemma ThreeOthers(nodes: set<Address>, a: Address) returns (b: Address, c: Address, d: Address)
    requires |nodes| >= 4 && a in nodes
    ensures Distinct([a, b, c, d]) && {b, c, d} <= nodes
  {
    var rest := nodes - {a};
    assert nodes == rest + {a};
    b :| b in rest;
    assert |rest - {b}| == |rest| - 1;
    c :| c in rest - {b};
    assert |rest - {b} - {c}| == |rest| - 2;
    d :| d in rest - {b} - {c};
  }

  /** Loop detection fails for some answers of the protocols exactly without recorded routes, from four nodes and four
      hops on: it then knows only the last hop and the source. */
  lemma LoopsIff(j: Journey)
    requires GoodJourney(j)
    ensures (exists answers: nat -> Answers, path: seq<Address>, r ::
               AnswersFrom(answers, j.nodes) && IsRun(j, answers, path, r) && !Distinct(path))
            <==> !Recorded(j) && |j.nodes| >= 4 && j.hopCountMax >= 4
  {
    if !Recorded(j) && |j.nodes| >= 4 && j.hopCountMax >= 4 {
      var b, c, d := ThreeOthers(j.nodes, j.srcNode);
      var path, answers := LoopExists(j, b, c, d);
    }
    forall answers: nat -> Answers, path: seq<Address>,
        r | AnswersFrom(answers, j.nodes) && IsRun(j, answers, path, r) && !Distinct(path)
      ensures !Recorded(j) && |j.nodes| >= 4 && j.hopCountMax >= 4
    {
      LoopIsLong(j, answers, path);
    }
  }

  /** The answers decide on the way: a message goes to one node, and it does not go on where its way ends. */
  lemma {:induction false} OneWay(j: Journey, answers: nat -> Answers, path: seq<Address>, other: seq<Address>,
                                  r: Outcome)
    requires path != [] && IsTrail(j, answers, path) && Ends(j, answers, path, r) && IsTrail(j, answers, other)
    ensures |other| <= |path| && other == path[..|other|]
  {
    hide *;
    TrailStep(j, answers, path);
    TrailStep(j, answers, other);
    if |other| > 1 {
      var before, c := other[..|other| - 1], other[|other| - 1];
      OneWay(j, answers, path, before, r);
      if |before| == |path| {
        assert before == path;
        EndsThere(j, answers, path, r, c);
        assert false;
      } else {
        var longer := path[..|before| + 1];
        TrailPrefix(j, answers, path, |before| + 1);
        TrailStep(j, answers, longer);
        assert longer[..|before|] == before;
        OneGoal(j, answers, before, c, path[|before|]);
      }
    }
  }

  lemma OneGoal(j: Journey, answers: nat -> Answers, trail: seq<Address>, c: Address, d: Address)
    requires trail != [] && GoesTo(j, answers, trail, c) && GoesTo(j, answers, trail, d)
    ensures c == d
  {
  }

  lemma {:induction false} TrailPrefix(j: Journey, answers: nat -> Answers, path: seq<Address>, k: nat)
    requires IsTrail(j, answers, path) && 1 <= k <= |path|
    ensures IsTrail(j, answers, path[..k])
  {
    if k < |path| {
      TrailPrefix(j, answers, path[..|path| - 1], k);
      assert path[..|path| - 1][..k] == path[..k];
    } else {
      assert path[..k] == path;
    }
  }

  lemma EndsThere(j: Journey, answers: nat -> Answers, trail: seq<Address>, r: Outcome, c: Address)
    requires trail != [] && trail[0] == j.srcNode && Ends(j, answers, trail, r)
    ensures !GoesTo(j, answers, trail, c)
  {
    if r.Thrown? && GoesTo(j, answers, trail, c) {
      var candidates := answers(0).findNode(j.numSiblings);
      assert Acceptable(At(j, j.srcNode), j.srcNode, [], j.srcNode, true, candidates[0]);
    }
  }

  /** The first acceptable candidate of a source that is a sibling is its first one. */
  lemma OwnTurnAtSource(j: Journey, m: BaseRouteMessage, a: Answers)
    requires m.srcNode == j.srcNode
    ensures var candidates, isSibling := a.findNode(j.numSiblings), a.isSibling(j.numSiblings);
            ItsOwnTurn(At(j, j.srcNode), m, j.srcNode, [], 0, isSibling, candidates)
            <==> j.hopCountMax > 0 && isSibling && candidates != [] && candidates[0] == j.srcNode
  {
    var candidates := a.findNode(j.numSiblings);
    if a.isSibling(j.numSiblings) && candidates != [] {
      assert Acceptable(At(j, j.srcNode), j.srcNode, [], j.srcNode, true, candidates[0]);
    }
  }

  /** The message is sent on, or its way has ended. */
  ghost predicate Handled(j: Journey, answers: nat -> Answers, trail: seq<Address>, r: Outcome)
    requires trail != []
  {
    if r.Sent? then GoesTo(j, answers, trail, r.to) else Ends(j, answers, trail, r)
  }

  /** The node where a message starts. */
  method SendOwn(j: Journey, answers: nat -> Answers) returns (r: Outcome, m: BaseRouteMessage)
    requires GoodJourney(j) && AnswersFrom(answers, j.nodes)
    ensures fresh(m) && m.srcNode == j.srcNode && m.keyed && m.routingType == j.routingType && m.nextHops == []
    ensures m.visitedHops == Record(j, answers, [j.srcNode]) && m.hopCount == if r.Sent? then 1 else 0
    ensures Handled(j, answers, [j.srcNode], r)
  {
    m := new BaseRouteMessage(j.srcNode, true, j.routingType);
    OwnTurnAtSource(j, m, answers(0));
    r := SendToKey(At(j, j.srcNode), m, j.srcNode, j.numSiblings, [], answers(0));
  }

  /** A message that is routed by its key goes the way that the answers and loop detection decide on, and carries the
      record of it. It ends after no more forwards than the maximum. In a network that records routes (or under source
      routing) no node gets it twice, whatever the protocols answer, so that it ends after less forwards than there are
      nodes. */
  method Route(j: Journey, answers: nat -> Answers) returns (r: Outcome, path: seq<Address>, m: BaseRouteMessage)
    requires GoodJourney(j) && AnswersFrom(answers, j.nodes)
    ensures fresh(m) && m.srcNode == j.srcNode && m.keyed && m.routingType == j.routingType && m.nextHops == []
    ensures IsRun(j, answers, path, r) && m.visitedHops == Record(j, answers, path)
    ensures |path| - 1 <= j.hopCountMax && m.hopCount == |path| - 1 && forall x :: x in path ==> x in j.nodes
    ensures Recorded(j) ==> Distinct(path) && |path| <= |j.nodes|
    ensures |j.nodes| <= 3 || j.hopCountMax <= 3 ==> Distinct(path) && |path| <= |j.nodes|
  {
    hide GoesTo, Ends, AnswersFrom, Record, GoodJourney;
    r, m := SendOwn(j, answers);
    path := [j.srcNode];
    while r.Sent?
      invariant fresh(m) && m.nextHops == []
      invariant IsTrail(j, answers, path) && Handled(j, answers, path, r)
      invariant m.visitedHops == Record(j, answers, path) && m.hopCount == |path| - if r.Sent? then 0 else 1
      invariant |path| - 1 <= j.hopCountMax
      decreases j.hopCountMax - |path|
    {
      var trail := path;
      path := path + [r.to];
      assert path[..|path| - 1] == trail;
      GoesElsewhere(j, answers, trail, r.to);
      r := Arrive(j, answers, trail, r.to, m);
    }
    TrailStays(j, answers, path);
    if !Distinct(path) {
      LoopIsLong(j, answers, path);
    } else {
      PathIsShort(path, j.nodes);
    }
  }

  lemma RecordGrows(j: Journey, answers: nat -> Answers, trail: seq<Address>, node: Address)
    requires trail != []
    ensures Record(j, answers, trail + [node]) == Record(j, answers, trail) + if Recorded(j) then [trail[|trail| - 1]]
        else []
  {
    assert (trail + [node])[..|trail|] == trail == trail[..|trail| - 1] + [trail[|trail| - 1]];
  }

  lemma HandledIs(j: Journey, answers: nat -> Answers, path: seq<Address>, m: BaseRouteMessage, r: Outcome)
    requires |path| > 1 && m.srcNode == j.srcNode && (answers(|path| - 1).isSibling(1) <==> r.Delivered?)
    requires !r.Delivered? ==>
        PassedOn(At(j, path[|path| - 1]), m, path[|path| - 2], Record(j, answers, path), |path| - 1, false,
                                        answers(|path| - 1).findNode(1), r)
    ensures Handled(j, answers, path, r)
  {
  }

  /** One hop. */
  method Arrive(j: Journey, answers: nat -> Answers, trail: seq<Address>, node: Address, m: BaseRouteMessage)
      returns (r: Outcome)
    requires GoodJourney(j) && AnswersFrom(answers, j.nodes) && trail != []
    requires m.srcNode == j.srcNode && m.keyed && m.routingType == j.routingType && m.nextHops == []
    requires m.visitedHops == Record(j, answers, trail) && m.hopCount == |trail|
    modifies m
    ensures m.nextHops == [] && m.visitedHops == Record(j, answers, trail + [node])
    ensures m.hopCount == |trail| + (if r.Sent? then 1 else 0)
    ensures Handled(j, answers, trail + [node], r)
  {
    RecordGrows(j, answers, trail, node);
    hide Record, PassedOn, Handled;
    r := HandleRoute(At(j, node), m, trail[|trail| - 1], answers(|trail|));
    SentAway(At(j, node), m, trail[|trail| - 1], m.visitedHops, |trail|, answers(|trail|).findNode(1), r);
    HandledIs(j, answers, trail + [node], m, r);
  }

  lemma SentAway(o: Overlay, m: BaseRouteMessage, lastHop: Address, visited: seq<Address>, hopCount: int,
                 candidates: seq<Address>, r: Outcome)
    requires r.Delivered? || PassedOn(o, m, lastHop, visited, hopCount, false, candidates, r)
    ensures r.Sent? ==> r.to != o.thisNode
  {
  }

  /** The loop that the code runs into. */
  method LoopIfNotRecorded(j: Journey, b: Address, c: Address, d: Address) returns (path: seq<Address>)
    requires GoodJourney(j) && !Recorded(j) && j.hopCountMax >= 4
    requires Distinct([j.srcNode, b, c, d]) && {b, c, d} <= j.nodes
    ensures path == [j.srcNode, b, c, d, b]
  {
    ghost var loop, answers := LoopExists(j, b, c, d);
    hide *;
    var r, m;
    r, path, m := Route(j, Along([j.srcNode, b, c, d, b]));
    SameWay(j, answers, path, r, loop, Dropped);
  }

  lemma SameWay(j: Journey, answers: nat -> Answers, path: seq<Address>, r: Outcome, other: seq<Address>, q: Outcome)
    requires IsRun(j, answers, path, r) && IsRun(j, answers, other, q)
    ensures path == other
  {
    TrailStep(j, answers, path);
    TrailStep(j, answers, other);
    OneWay(j, answers, path, other, r);
    OneWay(j, answers, other, path, q);
  }

  // ----- the way back

  function Reversed(s: seq<Address>): (r: seq<Address>)
    ensures |r| == |s| && forall i :: 0 <= i < |s| ==> r[i] == s[|s| - 1 - i]
  {
    if s == [] then [] else [s[|s| - 1]] + Reversed(s[..|s| - 1])
  }

  /** The source route of a reply: the visited hops from the last to the first, or the caller itself. */
  method SourceRoute(visitedHops: seq<Address>, dest: Address) returns (route: seq<Address>)
    ensures route == if visitedHops == [] then [dest] else Reversed(visitedHops)
  {
    route := [];
    var i := |visitedHops|;
    while i > 0
      invariant 0 <= i <= |visitedHops|
      invariant route == Reversed(visitedHops[i..])
    {
      ReversedAppends(visitedHops[i - 1], visitedHops[i..]);
      assert visitedHops[i - 1..] == [visitedHops[i - 1]] + visitedHops[i..];
      route := route + [visitedHops[i - 1]];
      i := i - 1;
    }
    assert visitedHops[0..] == visitedHops;
    if |route| == 0 {
      route := [dest];
    }
  }

  lemma {:induction false} ReversedAppends(a: Address, s: seq<Address>)
    ensures Reversed([a] + s) == Reversed(s) + [a]
  {
  }

  lemma AllSpecified(answers: nat -> Answers, nodes: set<Address>)
    requires AnswersFrom(answers, nodes)
    ensures forall k, n :: Specified(answers(k).findNode(n))
  {
  }

  /** A source route is followed exactly, whatever the nodes on it answer: each of them consumes one entry and notes
      the sender, and the last one delivers. */
  method FollowSourceRoute(responder: Address, recordRoute: bool, hopCountMax: nat, route: seq<Address>,
                           answers: nat -> Answers)
      returns (r: Outcome, path: seq<Address>, m: BaseRouteMessage)
    requires route != [] && Specified(route) && forall k, n :: Specified(answers(k).findNode(n))
    ensures fresh(m) && m.nextHops == []
    ensures r == Delivered && path == [responder] + route && m.visitedHops == path[..|route|]
  {
    m := new BaseRouteMessage(responder, false, RECURSIVE_SOURCE);
    path := [responder];
    r := SendToKey(Overlay(responder, recordRoute, hopCountMax), m, responder, 1, route, answers(0));
    var k := 0;
    hide PassedOn;
    while r.Sent?
      invariant fresh(m) && !m.keyed && k <= |route|
      invariant path == [responder] + route[..k] && m.visitedHops == path[..k]
      invariant if k < |route| then r == Sent(route[k]) && m.nextHops == route[k..]
                else r == Delivered && m.nextHops == []
      decreases |route| - k
    {
      var lastHop := path[|path| - 1];
      path := path + [r.to];
      assert k + 1 < |route| ==> route[k..][1] == route[k + 1] && route[k + 1] in route;
      assert route[..k + 1] == route[..k] + [route[k]];
      assert path[..k + 1] == path[..k] + [lastHop];
      r := HandleRoute(Overlay(path[|path| - 1], recordRoute, hopCountMax), m, lastHop, answers(k));
      k := k + 1;
    }
    assert route[..k] == route;
  }

  lemma {:induction false} StartsOnce(j: Journey, answers: nat -> Answers, trail: seq<Address>)
    requires IsTrail(j, answers, trail) && |trail| > 1 && j.numSiblings == 1
    ensures !HandsToItself(j, answers(0))
  {
    if |trail| > 2 {
      StartsOnce(j, answers, trail[..|trail| - 1]);
    }
  }

  /** The route of the reply: the node itself and then the route are the path backwards, and then the source's own
      entry. */
  lemma RouteBack(j: Journey, answers: nat -> Answers, path: seq<Address>, visited: seq<Address>, route: seq<Address>)
    requires GoodJourney(j) && AnswersFrom(answers, j.nodes) && IsRun(j, answers, path, Delivered) && Recorded(j)
    requires visited == Record(j, answers, path) && route == if visited == [] then [j.srcNode] else Reversed(visited)
    ensures route != [] && Specified(route) && route[|route| - 1] == j.srcNode
    ensures [path[|path| - 1]] + route == Reversed(path) + if HandsToItself(j, answers(0)) then [j.srcNode] else []
    ensures j.numSiblings == 1 && |path| > 1 ==> !HandsToItself(j, answers(0))
  {
    hide *;
    var before := WayOut(j, answers, path);
    Backwards(path, before, visited);
    SpecifiedBackwards(visited, path, j.nodes);
  }

  /** A path that was delivered, and what the source noted of itself before it. */
  lemma WayOut(j: Journey, answers: nat -> Answers, path: seq<Address>) returns (before: seq<Address>)
    requires GoodJourney(j) && AnswersFrom(answers, j.nodes) && IsRun(j, answers, path, Delivered) && Recorded(j)
    ensures path != [] && path[0] == j.srcNode && UNSPECIFIED !in j.nodes && forall x :: x in path ==> x in j.nodes
    ensures before == (if HandsToItself(j, answers(0)) then [j.srcNode] else []) && (|path| == 1 ==> before != [])
    ensures Record(j, answers, path) == before + path[..|path| - 1]
    ensures j.numSiblings == 1 && |path| > 1 ==> !HandsToItself(j, answers(0))
  {
    hide GoesTo, IsTrail, AnswersFrom, HandsToItself;
    before := if HandsToItself(j, answers(0)) then [j.srcNode] else [];
    TrailStays(j, answers, path);
    TrailStep(j, answers, path);
    if j.numSiblings == 1 && |path| > 1 {
      StartsOnce(j, answers, path);
    }
  }

  lemma Backwards(path: seq<Address>, before: seq<Address>, visited: seq<Address>)
    requires path != [] && visited == before + path[..|path| - 1] && visited != []
    requires (before == [] || before == [path[0]])
    ensures Reversed(visited)[|visited| - 1] == path[0]
    ensures [path[|path| - 1]] + Reversed(visited) == Reversed(path) + before
  {
    var front, last := path[..|path| - 1], path[|path| - 1];
    assert Reversed(path) == [last] + Reversed(front) && visited[0] == path[0];
    if before == [] {
      assert visited == front;
    } else {
      ReversedAppends(path[0], front);
      Regrouped([last], Reversed(front), before);
    }
  }

  lemma Regrouped(a: seq<Address>, b: seq<Address>, c: seq<Address>)
    ensures a + (b + c) == a + b + c
  {
  }

  lemma SpecifiedBackwards(visited: seq<Address>, path: seq<Address>, nodes: set<Address>)
    requires UNSPECIFIED !in nodes && (forall x :: x in path ==> x in nodes) && path != []
    requires visited == path[..|path| - 1] || visited == [path[0]] + path[..|path| - 1]
    ensures Specified(Reversed(visited))
  {
    forall x | x in Reversed(visited) ensures x != UNSPECIFIED {
      var k: nat :| k < |Reversed(visited)| && Reversed(visited)[k] == x;
      assert visited[|visited| - 1 - k] in path;
    }
  }

  /** Under source routing, the reply to a request that was delivered goes back exactly over the nodes that the request
      visited, in the opposite order, and is delivered at the node that asked. A source that handled its own request
      before it left is recorded twice, and gets the reply from itself in the end. */
  method RoundTrip(j: Journey, answers: nat -> Answers, answersBack: nat -> Answers)
      returns (r: Outcome, path: seq<Address>, delivered: bool, back: seq<Address>)
    requires GoodJourney(j) && j.routingType == RECURSIVE_SOURCE
    requires AnswersFrom(answers, j.nodes) && AnswersFrom(answersBack, j.nodes)
    ensures IsRun(j, answers, path, r) && Distinct(path)
    ensures delivered <==> r == Delivered
    ensures delivered ==> back == Reversed(path) + if HandsToItself(j, answers(0)) then [j.srcNode] else []
    ensures delivered ==> back[|back| - 1] == j.srcNode
    ensures delivered && j.numSiblings == 1 && |path| > 1 ==> back == Reversed(path)
  {
    hide IsTrail, AnswersFrom, Specified;
    var m;
    r, path, m := Route(j, answers);
    delivered, back := false, [];
    if r.Delivered? {
      var route := SourceRoute(m.visitedHops, j.srcNode);
      RouteBack(j, answers, path, m.visitedHops, route);
      AllSpecified(answersBack, j.nodes);
      var reply, replyPath, _ := FollowSourceRoute(path[|path| - 1], j.recordRoute, j.hopCountMax, route, answersBack);
      delivered, back := reply.Delivered?, replyPath;
    }
  }

  /** A source that is a sibling for its own number of siblings, but not for one, and then knows another node. */
  function AskItself(j: Journey, b: Address): nat -> Answers {
    (k: nat) => if k == 0 then Answers(n => if n == 1 then [b] else [j.srcNode], n => n != 1, _ => false)
                else Answers(_ => [], _ => true, _ => false)
  }

  lemma NotedTwice(j: Journey, b: Address)
    requires GoodJourney(j) && j.routingType == RECURSIVE_SOURCE && j.numSiblings != 1 && j.hopCountMax > 0
    requires b in j.nodes && b != j.srcNode
    ensures AnswersFrom(AskItself(j, b), j.nodes) && HandsToItself(j, AskItself(j, b)(0))
    ensures IsRun(j, AskItself(j, b), [j.srcNode, b], Delivered)
  {
    var answers, path := AskItself(j, b), [j.srcNode, b];
    assert path[..1] == [j.srcNode] && [b][0] == b && b in [b];
    assert IsTrail(j, answers, path[..1]);
    assert GoesTo(j, answers, path[..1], b);
    assert IsTrail(j, answers, path);
  }

  /** For every number of siblings but one there is a request of two nodes whose reply takes three steps. */
  method ReplyTakesOneHopMore(j: Journey, b: Address, answersBack: nat -> Answers)
      returns (path: seq<Address>, back: seq<Address>)
    requires GoodJourney(j) && j.routingType == RECURSIVE_SOURCE && j.numSiblings != 1 && j.hopCountMax > 0
    requires b in j.nodes && b != j.srcNode && AnswersFrom(answersBack, j.nodes)
    ensures path == [j.srcNode, b] && back == [b, j.srcNode, j.srcNode]
  {
    NotedTwice(j, b);
    hide IsRun, IsTrail, HandsToItself, AnswersFrom, AskItself;
    var r, delivered;
    r, path, delivered, back := RoundTrip(j, AskItself(j, b), answersBack);
    SameWay(j, AskItself(j, b), path, r, [j.srcNode, b], Delivered);
    SameEnd(j, AskItself(j, b), path, r, Delivered);
  }

  lemma SameEnd(j: Journey, answers: nat -> Answers, path: seq<Address>, r: Outcome, q: Outcome)
    requires IsRun(j, answers, path, r) && IsRun(j, answers, path, q)
    ensures r.Delivered? <==> q.Delivered?
  {
  }
}
