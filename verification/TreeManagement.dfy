/** The domain tree (src/common/TreeManagement.cc): every node finds its parent alone, by bisecting
    the key space until it is the node nearest to the probe key. The theorems say that these purely
    local decisions link all nodes into one tree.

    Keys are the integers 0 .. 2^bits - 1. `isSiblingFor(n, k, 1)` is read as "n is nearest to k
    under KeyStdMetric" among a fixed finite set of nodes. */
module TreeManagement {
  import opened Wrappers
  import Comparator
  import Limbs
  import Keys = OverlayKey

  function MaxKey(bits: nat): nat {
    Pow2(bits) - 1
  }

  /** KeyStdMetric::distance */
  function Distance(x: int, y: int): nat {
    if x > y then x - y else y - x
  }

  predicate IsSiblingFor(nodes: set<nat>, node: nat, key: nat) {
    forall m :: m in nodes ==> Distance(node, key) <= Distance(m, key)
  }

  /** OverlayKey::isBetween: x lies in the open clockwise interval (a, b). */
  predicate IsBetween(x: nat, a: nat, b: nat) {
    if x == a then false
    else if a < b then x > a && x < b
    else x > a || x < b
  }

  /** (leftBorder >> 1) + (rightBorder >> 1): below the true middle when both borders are odd. */
  function TestKey(left: nat, right: nat): (test: nat)
    ensures left + right - 2 <= 2 * test <= left + right
  {
    left / 2 + right / 2
  }

  /** OverlayKey::operator+ on keys of the given length: the carry out of the top bit is lost. */
  function KeySum(bits: nat, a: nat, b: nat): nat {
    if a + b < Pow2(bits) then a + b else a + b - Pow2(bits)
  }

  /** On keys of the given length, these are the interval, the distance and the sum of the limb arrays. */
  lemma KeysAreOnTheRing(x: nat, a: nat, b: nat, bits: nat)
    requires x < Pow2(bits) && a < Pow2(bits) && b < Pow2(bits)
    ensures IsBetween(x, a, b) <==> Keys.InOpen(x, a, b, bits)
    ensures Distance(a, b) == Comparator.KeyStdDistance(a, b, bits)
    ensures KeySum(bits, a, b) == Limbs.Mod(a + b, Pow2(bits))
  {
    Keys.CwCases(x, a, b, bits);
    Limbs.Quotient(a + b, Pow2(bits), if a + b < Pow2(bits) then 0 else 1, KeySum(bits, a, b));
  }

  /** The two border updates of one descent step; the sum of the borders is a key sum, so it wraps. */
  function Narrow(bits: nat, node: nat, left: nat, right: nat, test: nat): (nat, nat) {
    if IsBetween(node, left, test) then (left, test)
    else if IsBetween(node, KeySum(bits, right, left) / 2, right) then (test, right)
    else (left, right)
  }

  /** Where a descent ends: the level of the node and the domain key that names its parent. */
  datatype Position = Position(level: nat, domainKey: nat)

  /** The position of `node`, from iteration `it` on, where `previous` is the last key tested. */
  function Descend(nodes: set<nat>, bits: nat, node: nat, it: nat, left: nat, right: nat, previous: nat)
    : Option<Position>
    decreases bits - it
  {
    if it >= bits then None
    else
      var test := TestKey(left, right);
      if IsSiblingFor(nodes, node, test) then Some(Position(it, previous))
      else
        var (l, r) := Narrow(bits, node, left, right, test);
        Descend(nodes, bits, node, it + 1, l, r, test)
  }

  function PositionOf(nodes: set<nat>, bits: nat, node: nat): Option<Position> {
    Descend(nodes, bits, node, 1, 0, MaxKey(bits), MaxKey(bits) / 2)
  }

  /** The state of one node's tree manager. */
  class TreeManager {
    const bits: nat
    const thisNode: nat
    var parentNode: Option<nat>
    var treeDomainKey: Option<nat>
    var currentTreeLevel: nat

    constructor (bits: nat, thisNode: nat)
      ensures this.bits == bits && this.thisNode == thisNode
      ensures parentNode == None && treeDomainKey == None && currentTreeLevel == 0
    {
      this.bits, this.thisNode := bits, thisNode;
      parentNode, treeDomainKey, currentTreeLevel := None, None, 0;
    }

    /** The bisection loop: returns ZERO, and leaves the level alone, if it runs out of iterations. */
    method GetResponsibleDomainKey(nodes: set<nat>) returns (key: nat)
      modifies this`currentTreeLevel
      ensures var p := PositionOf(nodes, bits, thisNode);
              if p.Some?
              then key == p.value.domainKey && currentTreeLevel == p.value.level
              else key == 0 && currentTreeLevel == old(currentTreeLevel)
    {
      var rightBorder: nat := MaxKey(bits);
      var leftBorder: nat := 0;
      var testKey: nat := MaxKey(bits) / 2;
      var domainKey := MaxKey(bits) / 2;
      var it := 1;
      while it < bits
        invariant Descend(nodes, bits, thisNode, it, leftBorder, rightBorder, testKey)
               == PositionOf(nodes, bits, thisNode)
        invariant currentTreeLevel == old(currentTreeLevel)
      {
        domainKey := testKey;
        testKey := TestKey(leftBorder, rightBorder);
        if IsSiblingFor(nodes, thisNode, testKey) {
          currentTreeLevel := it;
          return domainKey;
        }
        if IsBetween(thisNode, leftBorder, testKey) {
          rightBorder := testKey;
        } else if IsBetween(thisNode, KeySum(bits, rightBorder, leftBorder) / 2, rightBorder) {
          leftBorder := testKey;
        }
        it := it + 1;
      }
      return 0;
    }

    method IsTreeDomainKeyValid(nodes: set<nat>) returns (valid: bool)
      modifies this`currentTreeLevel
      ensures valid == (treeDomainKey.Some? && treeDomainKey.value == DomainKey(nodes, bits, thisNode))
    {
      if treeDomainKey.None? {
        return false;
      }
      var key := GetResponsibleDomainKey(nodes);
      return key == treeDomainKey.value;
    }

    method CheckParentValid(nodes: set<nat>) returns (valid: bool)
      modifies this`currentTreeLevel
      ensures valid == ParentValid(nodes, bits, thisNode, parentNode, treeDomainKey)
    {
      if parentNode.None? {
        return false;
      }
      if parentNode.value == thisNode {
        return IsSiblingFor(nodes, thisNode, MaxKey(bits) / 2);
      }
      var keyValid := IsTreeDomainKeyValid(nodes);
      if keyValid {
        if IsSiblingFor(nodes, parentNode.value, treeDomainKey.value) {
          if !IsSiblingFor(nodes, thisNode, treeDomainKey.value) {
            return true;
          }
        }
      }
      return false;
    }

    /** Stores the domain key and returns the key the parent request is routed to. */
    method RegisterAtParent(nodes: set<nat>) returns (destKey: nat)
      modifies this`treeDomainKey, this`currentTreeLevel
      ensures destKey == DomainKey(nodes, bits, thisNode)
      ensures treeDomainKey == Some(destKey)
    {
      var key := GetResponsibleDomainKey(nodes);
      treeDomainKey := Some(key);
      var _ := GetResponsibleDomainKey(nodes);
      return key;
    }

    /** The parent becomes whoever answered; true if an old parent had to be released. */
    method HandleParentRequestResponse(src: nat) returns (released: bool)
      modifies this`parentNode
      ensures parentNode == Some(src)
      ensures released <==> old(parentNode).Some? && old(parentNode).value != src
    {
      released := false;
      if parentNode.None? || src != parentNode.value {
        released := parentNode.Some?;
        parentNode := Some(src);
      }
    }
  }

  /** What getResponsibleDomainKey returns: the domain key, or ZERO if the descent does not exit. */
  function DomainKey(nodes: set<nat>, bits: nat, node: nat): nat {
    var p := PositionOf(nodes, bits, node);
    if p.Some? then p.value.domainKey else 0
  }

  /** The local check a node makes of its parent link. */
  predicate ParentValid(nodes: set<nat>, bits: nat, node: nat, parent: Option<nat>, domainKey: Option<nat>) {
    && parent.Some?
    && if parent.value == node then IsSiblingFor(nodes, node, MaxKey(bits) / 2)
       else
         && domainKey == Some(DomainKey(nodes, bits, node))
         && IsSiblingFor(nodes, parent.value, domainKey.value)
         && !IsSiblingFor(nodes, node, domainKey.value)
  }

  /** No two node keys are adjacent, none is zero, and none lies within 1 of the upper end of the key space. */
  predicate WellSpaced(nodes: set<nat>, bits: nat) {
    && (forall m, n :: m in nodes && n in nodes && m != n ==> Distance(m, n) >= 2)
    && (forall n :: n in nodes ==> 1 <= n <= MaxKey(bits) - 2)
  }

  // ----- the descent

  /** The borders enclose the node, with room to spare; at the lower end of the key space one key is enough. */
  ghost predicate Enclosed(bits: nat, node: nat, left: nat, right: nat) {
    (left + 2 <= node || (left == 0 && node == 1)) && node + 2 <= right <= MaxKey(bits)
  }

  /** A node that fails the test for a key is at least 2 away from it. */
  lemma FailedTestIsFar(nodes: set<nat>, bits: nat, node: nat, test: nat)
    requires WellSpaced(nodes, bits) && node in nodes
    requires !IsSiblingFor(nodes, node, test)
    ensures Distance(node, test) >= 2
  {
  }

  /** The second comparison uses a sum that may wrap; it still sends the node to its own side. */
  lemma NarrowChoice(bits: nat, node: nat, left: nat, right: nat, test: nat)
    requires Enclosed(bits, node, left, right)
    requires test == TestKey(left, right) && Distance(node, test) >= 2
    ensures Narrow(bits, node, left, right, test) == (if node < test then (left, test) else (test, right))
  {
  }

  lemma DescendUnfold(nodes: set<nat>, bits: nat, node: nat, it: nat, left: nat, right: nat, previous: nat,
                      l: nat, r: nat)
    requires it < bits && !IsSiblingFor(nodes, node, TestKey(left, right))
    requires Narrow(bits, node, left, right, TestKey(left, right)) == (l, r)
    ensures Descend(nodes, bits, node, it, left, right, previous)
         == Descend(nodes, bits, node, it + 1, l, r, TestKey(left, right))
  {
  }

  /** One failed test: the node moves to its own side of the tested key and stays enclosed. */
  lemma DescendStep(nodes: set<nat>, bits: nat, node: nat, it: nat, left: nat, right: nat, previous: nat)
    returns (test: nat, l: nat, r: nat)
    requires WellSpaced(nodes, bits) && node in nodes && it < bits
    requires Enclosed(bits, node, left, right)
    requires !IsSiblingFor(nodes, node, TestKey(left, right))
    ensures test == TestKey(left, right) && Distance(node, test) >= 2
    ensures (l, r) == (if node < test then (left, test) else (test, right))
    ensures Enclosed(bits, node, l, r)
    ensures Descend(nodes, bits, node, it, left, right, previous)
         == Descend(nodes, bits, node, it + 1, l, r, test)
  {
    test := TestKey(left, right);
    FailedTestIsFar(nodes, bits, node, test);
    NarrowChoice(bits, node, left, right, test);
    l, r := if node < test then left else test, if node < test then test else right;
    DescendUnfold(nodes, bits, node, it, left, right, previous, l, r);
  }

  /** The gap between the borders halves at every step; the last step has too little room to fail. */
  lemma HalvedGap(bits: nat, node: nat, it: nat, left: nat, right: nat)
    requires Enclosed(bits, node, left, right) && it < bits
    requires right - left <= Pow2(bits - it + 1) + 1
    requires Distance(node, TestKey(left, right)) >= 2
    ensures it + 1 < bits && right - left <= 2 * Pow2(bits - it) + 1
  {
  }

  /** The descent of a node in a well spaced set always exits through the sibling test. */
  lemma {:induction false} DescentExits(nodes: set<nat>, bits: nat, node: nat, it: nat, left: nat, right: nat,
                                        previous: nat)
    requires WellSpaced(nodes, bits) && node in nodes && it < bits
    requires Enclosed(bits, node, left, right)
    requires right - left <= Pow2(bits - it + 1) + 1
    ensures Descend(nodes, bits, node, it, left, right, previous).Some?
    ensures it <= Descend(nodes, bits, node, it, left, right, previous).value.level < bits
    decreases bits - it
  {
    if !IsSiblingFor(nodes, node, TestKey(left, right)) {
      var test, l, r := DescendStep(nodes, bits, node, it, left, right, previous);
      HalvedGap(bits, node, it, left, right);
      DescentExits(nodes, bits, node, it + 1, l, r, test);
    }
  }

  lemma StartEnclosed(nodes: set<nat>, bits: nat, node: nat)
    requires WellSpaced(nodes, bits) && node in nodes
    ensures bits >= 2 && Enclosed(bits, node, 0, MaxKey(bits))
  {
    assert Pow2(0) == 1 && Pow2(1) == 2 && Pow2(2) == 4;
  }

  /** Every node of a well spaced set has a position, at a level below the key length. */
  lemma EveryNodeHasPosition(nodes: set<nat>, bits: nat, node: nat)
    requires WellSpaced(nodes, bits) && node in nodes
    ensures PositionOf(nodes, bits, node).Some?
    ensures 1 <= PositionOf(nodes, bits, node).value.level < bits
  {
    StartEnclosed(nodes, bits, node);
    DescentExits(nodes, bits, node, 1, 0, MaxKey(bits), MaxKey(bits) / 2);
  }

  // ----- the parent is closer to the root

  /** `node` fails the test here and exits further on, at a key that `parent` is nearest to. */
  ghost predicate Follows(nodes: set<nat>, bits: nat, node: nat, parent: nat, it: nat, left: nat, right: nat,
                          previous: nat, exit: Position)
  {
    && WellSpaced(nodes, bits) && node in nodes && parent in nodes
    && Enclosed(bits, node, left, right)
    && !IsSiblingFor(nodes, node, TestKey(left, right))
    && Descend(nodes, bits, node, it, left, right, previous) == Some(exit)
    && IsSiblingFor(nodes, parent, exit.domainKey)
  }

  /** One more step of `node`, which either ends the descent or goes on. */
  lemma FollowStep(nodes: set<nat>, bits: nat, node: nat, parent: nat, it: nat, left: nat, right: nat,
                   previous: nat, exit: Position)
    returns (test: nat, l: nat, r: nat)
    requires Follows(nodes, bits, node, parent, it, left, right, previous, exit)
    ensures it < bits && test == TestKey(left, right) && Distance(node, test) >= 2
    ensures (l, r) == (if node < test then (left, test) else (test, right))
    ensures if IsSiblingFor(nodes, node, TestKey(l, r))
            then exit == Position(it + 1, test)
            else Follows(nodes, bits, node, parent, it + 1, l, r, test, exit)
  {
    test, l, r := DescendStep(nodes, bits, node, it, left, right, previous);
  }

  /** The domain key at which the descent ends lies so deep between the borders that any node nearest
      to it lies at most one key outside of them; and the node is not nearest to it. */
  lemma {:induction false} NearestStaysInside(nodes: set<nat>, bits: nat, node: nat, parent: nat, it: nat,
                                              left: nat, right: nat, previous: nat, exit: Position)
    requires Follows(nodes, bits, node, parent, it, left, right, previous, exit)
    ensures left - 2 < parent < right + 2
    ensures exit.level > it && !IsSiblingFor(nodes, node, exit.domainKey)
    decreases bits - it
  {
    var test, l, r := FollowStep(nodes, bits, node, parent, it, left, right, previous, exit);
    if IsSiblingFor(nodes, node, TestKey(l, r)) {
      assert Distance(parent, test) <= Distance(node, test);
    } else {
      NearestStaysInside(nodes, bits, node, parent, it + 1, l, r, test, exit);
    }
  }

  /** Two nodes descend together from the same borders; `parent` is nearest to the domain key where
      `node` ends one or more steps later. Then `parent` exits strictly earlier. */
  lemma {:induction false} ParentExitsEarlier(nodes: set<nat>, bits: nat, node: nat, parent: nat, it: nat,
                                              left: nat, right: nat, previous: nat, exit: Position)
    requires Follows(nodes, bits, node, parent, it, left, right, previous, exit)
    requires Enclosed(bits, parent, left, right)
    ensures var p := Descend(nodes, bits, parent, it, left, right, previous);
            p.Some? && p.value.level < exit.level
    decreases bits - it
  {
    NearestStaysInside(nodes, bits, node, parent, it, left, right, previous, exit);
    var test, l, r := FollowStep(nodes, bits, node, parent, it, left, right, previous, exit);
    if !IsSiblingFor(nodes, parent, test) {
      var _, l', r' := DescendStep(nodes, bits, parent, it, left, right, previous);
      NearestStaysInside(nodes, bits, node, parent, it + 1, l, r, test, exit);
      ParentExitsEarlier(nodes, bits, node, parent, it + 1, l, r, test, exit);
    }
  }

  /** A node's parent, whichever nearest node answers for the domain key, has a smaller level, unless
      the node is itself at level 1; a level 1 node is nearest to the middle of the key space. */
  lemma ParentLevelDecreases(nodes: set<nat>, bits: nat, node: nat, parent: nat)
    requires WellSpaced(nodes, bits) && node in nodes && parent in nodes
    requires IsSiblingFor(nodes, parent, DomainKey(nodes, bits, node))
    ensures PositionOf(nodes, bits, node).Some? && PositionOf(nodes, bits, parent).Some?
    ensures var level := PositionOf(nodes, bits, node).value.level;
            && level >= 1
            && (level == 1 <==> IsSiblingFor(nodes, node, MaxKey(bits) / 2))
            && (level == 1 ==> DomainKey(nodes, bits, node) == MaxKey(bits) / 2)
            && (level > 1 ==> PositionOf(nodes, bits, parent).value.level < level)
            && (level > 1 ==> !IsSiblingFor(nodes, node, DomainKey(nodes, bits, node)))
  {
    EveryNodeHasPosition(nodes, bits, node);
    EveryNodeHasPosition(nodes, bits, parent);
    StartEnclosed(nodes, bits, node);
    StartEnclosed(nodes, bits, parent);
    var middle := MaxKey(bits) / 2;
    if !IsSiblingFor(nodes, node, middle) {
      var exit := PositionOf(nodes, bits, node).value;
      NearestStaysInside(nodes, bits, node, parent, 1, 0, MaxKey(bits), middle, exit);
      ParentExitsEarlier(nodes, bits, node, parent, 1, 0, MaxKey(bits), middle, exit);
    }
  }

  // ----- the tree

  /** The node reached from n by following k parent links. */
  ghost function Ancestor(parents: map<nat, nat>, n: nat, k: nat): nat
    decreases k
  {
    if k == 0 || n !in parents then n else Ancestor(parents, parents[n], k - 1)
  }

  /** Links stay inside the node set, and each leads to a lower rank unless it is a self link. */
  ghost predicate Ranked(nodes: set<nat>, parents: map<nat, nat>, rank: map<nat, nat>) {
    forall n :: n in nodes ==>
      && n in parents && parents[n] in nodes && n in rank
      && (parents[n] != n ==> parents[n] in rank && rank[parents[n]] < rank[n])
  }

  lemma {:induction false} AncestorRank(nodes: set<nat>, parents: map<nat, nat>, rank: map<nat, nat>, n: nat, k: nat)
    requires Ranked(nodes, parents, rank) && n in nodes
    ensures Ancestor(parents, n, k) in nodes && rank[Ancestor(parents, n, k)] <= rank[n]
    ensures k >= 1 ==> (Ancestor(parents, n, k) == n <==> parents[n] == n)
    decreases k
  {
    if k > 0 {
      AncestorRank(nodes, parents, rank, parents[n], k - 1);
    }
  }

  lemma {:induction false} RankedReachesRoot(nodes: set<nat>, parents: map<nat, nat>, rank: map<nat, nat>,
                                             n: nat, steps: nat)
    requires Ranked(nodes, parents, rank) && n in nodes && steps >= rank[n]
    ensures var root := Ancestor(parents, n, steps); root in nodes && parents[root] == root
    decreases steps
  {
    if parents[n] == n {
      AncestorRank(nodes, parents, rank, n, steps);
    } else {
      RankedReachesRoot(nodes, parents, rank, parents[n], steps - 1);
    }
  }

  /** Every node's link passes that node's own local check. */
  ghost predicate LinksValid(nodes: set<nat>, bits: nat, parents: map<nat, nat>, domainKeys: map<nat, Option<nat>>) {
    forall n :: n in nodes ==>
      && n in parents && parents[n] in nodes && n in domainKeys
      && ParentValid(nodes, bits, n, Some(parents[n]), domainKeys[n])
  }

  ghost function Level(nodes: set<nat>, bits: nat, node: nat): nat {
    var p := PositionOf(nodes, bits, node);
    if p.Some? then p.value.level else 0
  }

  lemma LinkGoesUp(nodes: set<nat>, bits: nat, parent: nat, domainKey: Option<nat>, n: nat)
    requires WellSpaced(nodes, bits) && n in nodes && parent in nodes
    requires ParentValid(nodes, bits, n, Some(parent), domainKey)
    ensures parent == n <==> IsSiblingFor(nodes, n, MaxKey(bits) / 2)
    ensures parent != n ==> Level(nodes, bits, parent) < Level(nodes, bits, n)
  {
    if parent != n {
      assert domainKey.value == DomainKey(nodes, bits, n);
      ParentLevelDecreases(nodes, bits, n, parent);
    }
  }

  lemma LinksAreRanked(nodes: set<nat>, bits: nat, parents: map<nat, nat>, domainKeys: map<nat, Option<nat>>)
    returns (rank: map<nat, nat>)
    requires WellSpaced(nodes, bits)
    requires LinksValid(nodes, bits, parents, domainKeys)
    ensures Ranked(nodes, parents, rank)
    ensures forall n :: n in nodes ==> rank[n] < bits
    ensures forall n :: n in nodes ==> (parents[n] == n <==> IsSiblingFor(nodes, n, MaxKey(bits) / 2))
  {
    rank := map n | n in nodes :: Level(nodes, bits, n);
    forall n | n in nodes
      ensures parents[n] == n <==> IsSiblingFor(nodes, n, MaxKey(bits) / 2)
      ensures parents[n] != n ==> rank[parents[n]] < rank[n]
      ensures rank[n] < bits
    {
      EveryNodeHasPosition(nodes, bits, n);
      LinkGoesUp(nodes, bits, parents[n], domainKeys[n], n);
    }
  }

  /** The tree theorem. If every node's link passes its own local check, then from any node the links
      lead, in fewer steps than the key has bits, to a root: a node that is its own parent, and these are
      exactly the nodes nearest to the middle of the key space. The only cycles are the root's self links. */
  lemma LocalChecksMakeTree(nodes: set<nat>, bits: nat, parents: map<nat, nat>, domainKeys: map<nat, Option<nat>>,
                            n: nat, k: nat)
    requires WellSpaced(nodes, bits) && n in nodes
    requires LinksValid(nodes, bits, parents, domainKeys)
    ensures bits > 0
    ensures var root := Ancestor(parents, n, bits - 1);
            root in nodes && parents[root] == root && IsSiblingFor(nodes, root, MaxKey(bits) / 2)
    ensures parents[n] == n <==> IsSiblingFor(nodes, n, MaxKey(bits) / 2)
    ensures k >= 1 ==> (Ancestor(parents, n, k) == n <==> parents[n] == n)
  {
    hide *;
    var rank := LinksAreRanked(nodes, bits, parents, domainKeys);
    StartEnclosed(nodes, bits, n);
    RankedReachesRoot(nodes, parents, rank, n, bits - 1);
    AncestorRank(nodes, parents, rank, n, k);
  }

  /** There is one tree, not several, exactly if no two nodes tie for the middle of the key space. */
  lemma OneRootIffNoTie(nodes: set<nat>, bits: nat, parents: map<nat, nat>, domainKeys: map<nat, Option<nat>>)
    requires WellSpaced(nodes, bits)
    requires LinksValid(nodes, bits, parents, domainKeys)
    ensures (forall a, b :: a in nodes && b in nodes && parents[a] == a && parents[b] == b ==> a == b)
       <==> (forall a, b :: a in nodes && b in nodes && a != b && IsSiblingFor(nodes, a, MaxKey(bits) / 2) ==>
               Distance(a, MaxKey(bits) / 2) < Distance(b, MaxKey(bits) / 2))
  {
    var _ := LinksAreRanked(nodes, bits, parents, domainKeys);
  }

  /** Registering works: once the node responsible for the domain key has answered the parent request,
      the local check passes, unless another node tied with a would-be root for the middle key. */
  lemma RegisteringMakesLinkValid(nodes: set<nat>, bits: nat, node: nat, responder: nat)
    requires WellSpaced(nodes, bits) && node in nodes && responder in nodes
    requires IsSiblingFor(nodes, responder, DomainKey(nodes, bits, node))
    ensures ParentValid(nodes, bits, node, Some(responder), Some(DomainKey(nodes, bits, node)))
       <==> !(IsSiblingFor(nodes, node, MaxKey(bits) / 2) && responder != node)
  {
    ParentLevelDecreases(nodes, bits, node, responder);
  }

  /** Two nodes at the same distance from the middle are two roots, in every key space of at least 4 bits. */
  lemma TwoRoots(bits: nat, a: nat, b: nat)
    requires bits >= 4 && a == MaxKey(bits) / 2 - 2 && b == MaxKey(bits) / 2 + 2
    ensures WellSpaced({a, b}, bits) && LinksValid({a, b}, bits, map[a := a, b := b], map[a := None, b := None])
  {
    Halves(bits);
    Halves(bits - 2);
  }

  lemma Halves(n: nat)
    requires n >= 2
    ensures Pow2(n) == 4 * Pow2(n - 2) && Pow2(n - 1) == 2 * Pow2(n - 2)
  {
    assert Pow2(n) == 2 * Pow2(n - 1);
  }

  // ----- the spacing cannot be relaxed

  /** The first and the last key of the key space leave their borders alone, and so test the middle only. */
  lemma EndKeysFail(nodes: set<nat>, bits: nat, node: nat)
    requires bits >= 2 && (node == 0 || node == MaxKey(bits))
    ensures PositionOf(nodes, bits, node) == None <==> !IsSiblingFor(nodes, node, MaxKey(bits) / 2)
  {
    Halves(bits);
    PowerIsOne(bits - 2);
    if !IsSiblingFor(nodes, node, MaxKey(bits) / 2) {
      EndKeyNeverFound(nodes, bits, node, 1, MaxKey(bits) / 2);
    }
  }

  lemma {:induction false} EndKeyNeverFound(nodes: set<nat>, bits: nat, node: nat, it: nat, previous: nat)
    requires bits >= 2 && (node == 0 || node == MaxKey(bits)) && !IsSiblingFor(nodes, node, MaxKey(bits) / 2)
    ensures Descend(nodes, bits, node, it, 0, MaxKey(bits), previous) == None
    decreases bits - it
  {
    if it < bits {
      Halves(bits);
      PowerIsOne(bits - 2);
      hide Pow2, IsSiblingFor, Descend;
      DescendUnfold(nodes, bits, node, it, 0, MaxKey(bits), previous, 0, MaxKey(bits));
      EndKeyNeverFound(nodes, bits, node, it + 1, MaxKey(bits) / 2);
    }
  }

  lemma CloserNode(nodes: set<nat>, node: nat, closer: nat, key: nat)
    requires closer in nodes && Distance(closer, key) < Distance(node, key)
    ensures !IsSiblingFor(nodes, node, key)
  {
  }

  /** The borders of the first three iterations. */
  lemma AdjacentKeysNarrow(bits: nat, n: nat, quarter: nat)
    requires bits >= 4 && n == 4 * quarter && quarter > 0 && Pow2(bits) == 4 * n
    ensures TestKey(0, MaxKey(bits)) == 2 * n - 1 && Narrow(bits, n + 1, 0, MaxKey(bits), 2 * n - 1) == (0, 2 * n - 1)
    ensures TestKey(0, 2 * n - 1) == n - 1 && Narrow(bits, n + 1, 0, 2 * n - 1, n - 1) == (n - 1, 2 * n - 1)
    ensures TestKey(n - 1, 2 * n - 1) == n + 2 * quarter - 2
    ensures quarter > 1 ==> Narrow(bits, n + 1, n - 1, 2 * n - 1, n + 2 * quarter - 2) == (n - 1, n + 2 * quarter - 2)
  {
    hide Pow2;
  }

  /** Another one of the three keys is nearer to the first three keys tested. */
  lemma AdjacentKeysMiss(nodes: set<nat>, n: nat, quarter: nat)
    requires n == 4 * quarter && quarter > 0 && nodes == {n, n + 1, n + 2}
    ensures !IsSiblingFor(nodes, n + 1, 2 * n - 1) && !IsSiblingFor(nodes, n + 1, n - 1)
    ensures !IsSiblingFor(nodes, n + 1, n + 2 * quarter - 2)
  {
    CloserNode(nodes, n + 1, n + 2, 2 * n - 1);
    CloserNode(nodes, n + 1, n, n - 1);
    CloserNode(nodes, n + 1, if quarter == 1 then n else n + 2, n + 2 * quarter - 2);
  }

  lemma OutOfIterations(nodes: set<nat>, bits: nat, node: nat, it: nat, left: nat, right: nat, previous: nat)
    requires it + 1 == bits && !IsSiblingFor(nodes, node, TestKey(left, right))
    ensures Descend(nodes, bits, node, it, left, right, previous) == None
  {
  }

  /** Three failed tests, and what comes after them. */
  lemma ThreeTestsFail(nodes: set<nat>, bits: nat, node: nat, max: nat, right: nat, left: nat, test: nat)
    requires bits >= 4 && TestKey(0, max) == right && TestKey(0, right) == left && TestKey(left, right) == test
    requires !IsSiblingFor(nodes, node, right) && !IsSiblingFor(nodes, node, left) && !IsSiblingFor(nodes, node, test)
    requires Narrow(bits, node, 0, max, right) == (0, right) && Narrow(bits, node, 0, right, left) == (left, right)
    requires bits > 4 ==>
        Narrow(bits, node, left, right, test) == (left, test) && Descend(nodes, bits, node, 4, left, test, test) == None
    ensures Descend(nodes, bits, node, 1, 0, max, right) == None
  {
    hide *;
    DescendUnfold(nodes, bits, node, 1, 0, max, right, 0, right);
    DescendUnfold(nodes, bits, node, 2, 0, right, right, left, right);
    if bits > 4 {
      DescendUnfold(nodes, bits, node, 3, left, right, left, left, test);
    } else {
      OutOfIterations(nodes, bits, node, 3, left, right, left);
    }
  }

  lemma PowerIsOne(i: nat)
    ensures Pow2(i) > 0 && (Pow2(i) == 1 <==> i == 0)
  {
    Limbs.PowMonotonic(if i == 0 then 0 else 1, i);
  }

  lemma Powers(bits: nat)
    requires bits >= 4
    ensures Pow2(bits) == 16 * Pow2(bits - 4) && Pow2(bits - 2) == 4 * Pow2(bits - 4)
    ensures Pow2(bits - 3) == 2 * Pow2(bits - 4)
    ensures Pow2(bits - 4) > 0 && (Pow2(bits - 4) == 1 <==> bits == 4)
  {
    Halves(bits);
    Halves(bits - 2);
    PowerIsOne(bits - 4);
  }

  /** With adjacent keys, the middle one of three runs out of iterations, in every key space of at least 4 bits. */
  lemma AdjacentKeysFail(nodes: set<nat>, bits: nat, n: nat)
    requires bits >= 4 && n == Pow2(bits - 2) && nodes == {n, n + 1, n + 2}
    ensures PositionOf(nodes, bits, n + 1) == None
  {
    Powers(bits);
    var quarter := Pow2(bits - 4);
    hide Pow2, Descend, IsSiblingFor, Narrow, TestKey;
    AdjacentKeysFailFrom(nodes, bits, n, quarter, n + 2 * quarter - 2);
  }

  lemma AdjacentKeysFailFrom(nodes: set<nat>, bits: nat, n: nat, quarter: nat, test: nat)
    requires bits >= 4 && n == Pow2(bits - 2) == 4 * quarter && nodes == {n, n + 1, n + 2}
    requires test == n + 2 * quarter - 2
    requires quarter > 0 && (quarter == 1 <==> bits == 4) && Pow2(bits) == 4 * n && Pow2(bits - 3) == 2 * quarter
    ensures Descend(nodes, bits, n + 1, 1, 0, MaxKey(bits), 2 * n - 1) == None
  {
    hide *;
    AdjacentKeysNarrow(bits, n, quarter);
    AdjacentKeysMiss(nodes, n, quarter);
    if bits > 4 {
      AdjacentKeysNeverFound(nodes, bits, n, bits - 3, test, test);
    }
    ThreeTestsFail(nodes, bits, n + 1, MaxKey(bits), 2 * n - 1, n - 1, test);
  }

  /** The next border, which lies above the three keys unless it is the last but one. */
  lemma AdjacentKeysCloseIn(nodes: set<nat>, bits: nat, n: nat, right: nat, half: nat)
    requires nodes == {n, n + 1, n + 2} && right == n + 4 * half - 2 && half > 0 && n >= 4 * half && n % 4 == 0
    requires Pow2(bits) == 4 * n
    ensures TestKey(n - 1, right) == n + 2 * half - 2 && !IsSiblingFor(nodes, n + 1, n + 2 * half - 2)
    ensures half > 1 ==> Narrow(bits, n + 1, n - 1, right, n + 2 * half - 2) == (n - 1, n + 2 * half - 2)
  {
    hide Pow2;
    CloserNode(nodes, n + 1, if half == 1 then n else n + 2, n + 2 * half - 2);
  }

  /** The borders close in on the three keys from above, and meet them one iteration too late. */
  lemma {:induction false} AdjacentKeysNeverFound(nodes: set<nat>, bits: nat, n: nat, i: nat, right: nat, previous: nat)
    requires bits >= 4 && n == Pow2(bits - 2) && nodes == {n, n + 1, n + 2} && 1 < i <= bits - 3
    requires right == n + Pow2(i) - 2
    ensures Descend(nodes, bits, n + 1, bits - i + 1, n - 1, right, previous) == None
  {
    hide *;
    Powers(bits);
    Halves(i);
    Limbs.PowMonotonic(i, bits - 2);
    PowerIsOne(i - 2);
    AdjacentKeysCloseIn(nodes, bits, n, right, Pow2(i - 2));
    var test := n + Pow2(i - 1) - 2;
    if i == 2 {
      OutOfIterations(nodes, bits, n + 1, bits - 1, n - 1, right, previous);
    } else {
      DescendUnfold(nodes, bits, n + 1, bits - i + 1, n - 1, right, previous, n - 1, test);
      AdjacentKeysNeverFound(nodes, bits, n, i - 1, test, test);
    }
  }

  lemma BorderKeyNarrow(bits: nat, end: nat, quarter: nat)
    requires end == MaxKey(bits) && quarter > 0 && Pow2(bits) == 16 * quarter
    ensures TestKey(0, end) == end / 2 && Narrow(bits, end - 1, 0, end, end / 2) == (end / 2, end)
    ensures TestKey(end / 2, end) == end - 4 * quarter - 1
    ensures Narrow(bits, end - 1, end / 2, end, end - 4 * quarter - 1) == (end - 4 * quarter - 1, end)
  {
    hide Pow2;
  }

  /** So does a key next to the end of the key space, in every key space of at least 4 bits and with the other key three
      away. */
  lemma BorderKeyFails(nodes: set<nat>, bits: nat, end: nat)
    requires bits >= 4 && end == MaxKey(bits) && nodes == {end - 4, end - 1}
    ensures PositionOf(nodes, bits, end - 1) == None
  {
    hide Pow2, Descend, IsSiblingFor, Narrow, TestKey;
    Powers(bits);
    var middle, test := end / 2, end - Pow2(bits - 2) - 1;
    BorderKeyNarrow(bits, end, Pow2(bits - 4));
    CloserNode(nodes, end - 1, end - 4, middle);
    CloserNode(nodes, end - 1, end - 4, test);
    DescendUnfold(nodes, bits, end - 1, 1, 0, end, middle, middle, end);
    DescendUnfold(nodes, bits, end - 1, 2, middle, end, middle, test, end);
    BorderKeyNeverFound(nodes, bits, end, bits - 2, test, test);
  }

  lemma BorderKeyComesNear(nodes: set<nat>, bits: nat, end: nat, left: nat, half: nat)
    requires nodes == {end - 4, end - 1} && end == MaxKey(bits) && half > 0 && left == end - 2 * half - 1
    requires Pow2(bits) % 4 == 0 && Pow2(bits) >= 8 * half && Pow2(bits) >= 8
    ensures TestKey(left, end) == end - half - 1 && !(half >= 2 && IsSiblingFor(nodes, end - 1, end - half - 1))
    ensures half >= 2 ==> Narrow(bits, end - 1, left, end, end - half - 1) == (end - half - 1, end)
  {
    hide Pow2;
    if half >= 2 {
      CloserNode(nodes, end - 1, end - 4, end - half - 1);
    }
  }

  lemma {:induction false} BorderKeyNeverFound(nodes: set<nat>, bits: nat, end: nat, i: nat, left: nat, previous: nat)
    requires bits >= 4 && end == MaxKey(bits) && nodes == {end - 4, end - 1} && 0 < i <= bits - 2
    requires left == end - Pow2(i) - 1
    ensures Descend(nodes, bits, end - 1, bits - i + 1, left, end, previous) == None
  {
    if i > 1 {
      hide *;
      Powers(bits);
      Halves(i);
      Limbs.PowMonotonic(i, bits - 2);
      PowerIsOne(i - 2);
      var test := end - Pow2(i - 1) - 1;
      BorderKeyComesNear(nodes, bits, end, left, Pow2(i - 1));
      DescendUnfold(nodes, bits, end - 1, bits - i + 1, left, end, previous, test, end);
      BorderKeyNeverFound(nodes, bits, end, i - 1, test, test);
    }
  }
}
