/** The metrics and comparators of keys and proximities (src/common/Comparator.h), on the numbers of the keys. */
module Comparator {
  import opened Bitwise
  import opened Limbs
  import opened OverlayKey
  import opened Wrappers
  import NodeVector
  import LookupVector

  // ----- metrics

  /** x - y if x is larger, and y - x if not. */
  function KeyStdDistance(x: nat, y: nat, bits: nat): (d: nat)
    ensures x < Pow2(bits) && y < Pow2(bits) ==> d == if x > y then x - y else y - x
  {
    CwIsIfBelow(x, y, bits);
    CwIsIfBelow(y, x, bits);
    if x > y then Cw(y, x, bits) else Cw(x, y, bits)
  }

  lemma CwIsIfBelow(a: nat, x: nat, bits: nat)
    ensures a < Pow2(bits) && x < Pow2(bits) ==> Cw(a, x, bits) == if x >= a then x - a else x - a + Pow2(bits)
  {
    if a < Pow2(bits) && x < Pow2(bits) {
      CwIs(a, x, bits);
    }
  }

  function KeyXorDistance(x: nat, y: nat): nat {
    Xor(x, y)
  }

  function KeyCwRingDistance(x: nat, y: nat, bits: nat): nat {
    Cw(x, y, bits)
  }

  /** The smaller of the distances in both directions. */
  function KeyRingDistance(x: nat, y: nat, bits: nat): nat {
    var (dist1, dist2) := (Cw(y, x, bits), Cw(x, y, bits));
    if dist1 > dist2 then dist2 else dist1
  }

  // ----- the same on the limbs of keys

  /** Two specified keys of one ring. */
  ghost predicate Comparable(x: OverlayKey, y: OverlayKey)
    reads x, x.key, y, y.key
  {
    x.Valid() && y.Valid() && x.keyLength == y.keyLength && !x.isUnspec && !y.isUnspec
  }

  method StdDistance(x: OverlayKey, y: OverlayKey) returns (d: OverlayKey)
    requires Comparable(x, y)
    ensures fresh(d) && Comparable(d, x) && d.Number() == KeyStdDistance(x.Number(), y.Number(), x.keyLength)
  {
    var _, c := x.CompareTo(y);
    hide Value, Pow2, Mod;
    if c > 0 {
      d := x.Minus(y);
    } else {
      d := y.Minus(x);
    }
  }

  method XorDistance(x: OverlayKey, y: OverlayKey) returns (d: OverlayKey)
    requires Comparable(x, y)
    ensures fresh(d) && Comparable(d, x) && d.Number() == KeyXorDistance(x.Number(), y.Number())
  {
    d := x.CombineWith(XorOp, y);
  }

  method RingDistance(x: OverlayKey, y: OverlayKey) returns (d: OverlayKey)
    requires Comparable(x, y)
    ensures fresh(d) && Comparable(d, x) && d.Number() == KeyRingDistance(x.Number(), y.Number(), x.keyLength)
  {
    hide Value, Pow2, Mod;
    var dist1 := x.Minus(y);
    var dist2 := y.Minus(x);
    var _, c := dist1.CompareTo(dist2);
    d := if c > 0 then dist2 else dist1;
  }

  method CwRingDistance(x: OverlayKey, y: OverlayKey) returns (d: OverlayKey)
    requires Comparable(x, y)
    ensures fresh(d) && Comparable(d, x) && d.Number() == KeyCwRingDistance(x.Number(), y.Number(), x.keyLength)
  {
    d := y.Minus(x);
  }

  // ----- laws

  /** The four distances in plain terms. */
  lemma DistancesAre(x: nat, y: nat, bits: nat)
    requires x < Pow2(bits) && y < Pow2(bits)
    ensures x <= y ==> KeyStdDistance(x, y, bits) == y - x
    ensures x > y ==> KeyStdDistance(x, y, bits) == x - y
    ensures x <= y ==> KeyCwRingDistance(x, y, bits) == y - x
    ensures x > y ==> KeyCwRingDistance(x, y, bits) == Pow2(bits) - (x - y)
    ensures var d := if x <= y then y - x else x - y;
            KeyRingDistance(x, y, bits) == if d <= Pow2(bits) - d then d else Pow2(bits) - d
    ensures forall k: nat :: BitAt(KeyXorDistance(x, y), k) <==> BitAt(x, k) != BitAt(y, k)
  {
    CwIsIfBelow(x, y, bits);
    CwIsIfBelow(y, x, bits);
    forall k: nat
      ensures BitAt(KeyXorDistance(x, y), k) <==> BitAt(x, k) != BitAt(y, k)
    {
      CombineAt(x, y, k);
    }
  }

  lemma XorIsMetric(x: nat, y: nat, z: nat)
    ensures KeyXorDistance(x, y) == KeyXorDistance(y, x)
    ensures KeyXorDistance(x, y) == 0 <==> x == y
    ensures KeyXorDistance(x, z) <= KeyXorDistance(x, y) + KeyXorDistance(y, z)
  {
    XorSymmetric(x, y);
    XorZero(x, y);
    XorTriangle(x, y, z);
  }

  /** For each key and distance there is one key at that distance, and it is a key of the ring. */
  lemma XorIsUnidirectional(x: nat, d: nat, bits: nat)
    requires x < Pow2(bits) && d < Pow2(bits)
    ensures Xor(x, d) < Pow2(bits) && KeyXorDistance(x, Xor(x, d)) == d
    ensures forall y: nat :: KeyXorDistance(x, y) == d ==> y == Xor(x, d)
  {
    XorCancels(x, d);
    CombineIsBelow(XorOp, x, d, bits);
    forall y: nat | KeyXorDistance(x, y) == d
      ensures y == Xor(x, d)
    {
      XorCancels(x, y);
    }
  }

  lemma RingIsMetric(x: nat, y: nat, z: nat, bits: nat)
    requires x < Pow2(bits) && y < Pow2(bits) && z < Pow2(bits)
    ensures KeyRingDistance(x, y, bits) == KeyRingDistance(y, x, bits)
    ensures KeyRingDistance(x, y, bits) == 0 <==> x == y
    ensures KeyRingDistance(x, z, bits) <= KeyRingDistance(x, y, bits) + KeyRingDistance(y, z, bits)
    ensures 2 * KeyRingDistance(x, y, bits) <= Pow2(bits)
  {
    CwIsIfBelow(x, y, bits);
    CwIsIfBelow(y, x, bits);
    CwIsIfBelow(y, z, bits);
    CwIsIfBelow(z, y, bits);
    CwIsIfBelow(x, z, bits);
    CwIsIfBelow(z, x, bits);
    hide Cw, Pow2, Mod;
  }

  /** Clockwise distances add up to whole turns, and there is one key at each distance. */
  lemma CwRingAddsUp(x: nat, y: nat, z: nat, bits: nat)
    requires x < Pow2(bits) && y < Pow2(bits) && z < Pow2(bits)
    ensures x != y ==> KeyCwRingDistance(x, y, bits) + KeyCwRingDistance(y, x, bits) == Pow2(bits)
    ensures KeyCwRingDistance(x, y, bits) + KeyCwRingDistance(y, z, bits)
            == KeyCwRingDistance(x, z, bits) + if InBoth(y, x, z, bits) then 0 else Pow2(bits)
    ensures KeyCwRingDistance(x, y, bits) == KeyCwRingDistance(x, z, bits) ==> y == z
  {
    CwIsIfBelow(x, y, bits);
    CwIsIfBelow(y, x, bits);
    CwIsIfBelow(y, z, bits);
    CwIsIfBelow(x, z, bits);
    hide Cw, Pow2, Mod;
  }

  // ----- comparators

  datatype Metric = StdMetric | XorMetric | RingMetric | CwRingMetric

  function Distance(m: Metric, x: nat, y: nat, bits: nat): nat {
    match m
    case StdMetric => KeyStdDistance(x, y, bits)
    case XorMetric => KeyXorDistance(x, y)
    case RingMetric => KeyRingDistance(x, y, bits)
    case CwRingMetric => KeyCwRingDistance(x, y, bits)
  }

  /** Which of two keys is closer to the relative key. */
  function KeyDistanceCompare(m: Metric, key: nat, lhs: nat, rhs: nat, bits: nat): (r: int)
    ensures -1 <= r <= 1
  {
    Sign(Distance(m, lhs, key, bits) - Distance(m, rhs, key, bits))
  }

  /** The answer is negative exactly if the first key is closer to the relative key, and positive exactly if the second
      one is. */
  lemma CloserIsLess(m: Metric, key: nat, lhs: nat, rhs: nat, bits: nat)
    ensures m == StdMetric ==>
              (KeyDistanceCompare(m, key, lhs, rhs, bits) < 0
               <==> KeyStdDistance(lhs, key, bits) < KeyStdDistance(rhs, key, bits))
              && (KeyDistanceCompare(m, key, lhs, rhs, bits) > 0
                  <==> KeyStdDistance(rhs, key, bits) < KeyStdDistance(lhs, key, bits))
    ensures m == XorMetric ==>
              (KeyDistanceCompare(m, key, lhs, rhs, bits) < 0 <==> KeyXorDistance(lhs, key) < KeyXorDistance(rhs, key))
              && (KeyDistanceCompare(m, key, lhs, rhs, bits) > 0
                  <==> KeyXorDistance(rhs, key) < KeyXorDistance(lhs, key))
    ensures m == RingMetric ==>
              (KeyDistanceCompare(m, key, lhs, rhs, bits) < 0
               <==> KeyRingDistance(lhs, key, bits) < KeyRingDistance(rhs, key, bits))
              && (KeyDistanceCompare(m, key, lhs, rhs, bits) > 0
                  <==> KeyRingDistance(rhs, key, bits) < KeyRingDistance(lhs, key, bits))
    ensures m == CwRingMetric ==>
              (KeyDistanceCompare(m, key, lhs, rhs, bits) < 0
               <==> KeyCwRingDistance(lhs, key, bits) < KeyCwRingDistance(rhs, key, bits))
              && (KeyDistanceCompare(m, key, lhs, rhs, bits) > 0
                  <==> KeyCwRingDistance(rhs, key, bits) < KeyCwRingDistance(lhs, key, bits))
  {
  }

  /** The relative key comes before every other key. */
  lemma RelativeKeyIsFirst(m: Metric, key: nat, a: nat, bits: nat)
    requires key < Pow2(bits) && a < Pow2(bits)
    ensures KeyDistanceCompare(m, key, key, a, bits) < 0 <==> a != key
  {
    CwIsIfBelow(key, key, bits);
    CwIsIfBelow(a, key, bits);
    CwIsIfBelow(key, a, bits);
    XorZero(key, key);
    XorZero(a, key);
    hide Cw, Pow2, Mod, Xor;
  }

  /** A vector of keys that is ranked by the comparator, all others left out. */
  function RankedBy(max: nat, m: Metric, key: nat, bits: nat): NodeVector.Config<nat, nat> {
    NodeVector.Config(max, Some((x: nat, y: nat) => KeyDistanceCompare(m, key, x, y, bits)), None, None, 0, 0,
                      (x: nat) => x)
  }

  /** Such a vector is well formed, and has the nearest of the keys offered to it first; with the relative key among
      them, that is the first one. */
  lemma NearestIsFirst(max: nat, m: Metric, key: nat, bits: nat, v: seq<nat>, offered: seq<nat>)
    requires max > 0 && NodeVector.Best(RankedBy(max, m, key, bits), v, offered) && offered != []
    requires key < Pow2(bits) && forall x :: x in offered ==> x < Pow2(bits)
    ensures NodeVector.WellFormed(RankedBy(max, m, key, bits)) && v != [] && v[0] in offered
    ensures forall x :: x in offered ==> Distance(m, v[0], key, bits) <= Distance(m, x, key, bits)
    ensures key in offered ==> v[0] == key
  {
    hide Distance, Pow2;
    var c := RankedBy(max, m, key, bits);
    assert offered[0] in offered;
    assert v != [];
    assert v[0] in v;
    forall x | x in offered
      ensures Distance(m, v[0], key, bits) <= Distance(m, x, key, bits)
    {
      if NodeVector.HasId(c, v, x) {
        var y: nat :| y in v && c.id(y) == c.id(x);
        var i: nat :| i < |v| && v[i] == y;
        assert i > 0 ==> NodeVector.Le(c, 0, v[0], v[i]);
      } else {
        assert NodeVector.Le(c, 0, v[0], x);
      }
    }
    if key in offered {
      RelativeKeyIsFirst(m, key, v[0], bits);
    }
  }

  /** The vectors of a lookup are ranked in the same way: by the comparator for the key that is looked up. */
  lemma LookupRanksAlike(m: Metric, key: nat, x: nat, y: nat, bits: nat)
    ensures LookupVector.Compare(Distance(m, x, key, bits), Distance(m, y, key, bits))
            == KeyDistanceCompare(m, key, x, y, bits)
  {
  }

  /** Every comparator orders the keys by one number, so it is a total preorder; and exactly the comparators of the XOR
      and the clockwise metric tell all keys apart. */
  lemma CompareIsOrder(m: Metric, key: nat, a: nat, b: nat, c: nat, bits: nat)
    requires key < Pow2(bits) && a < Pow2(bits) && b < Pow2(bits)
    ensures KeyDistanceCompare(m, key, a, b, bits) == -KeyDistanceCompare(m, key, b, a, bits)
    ensures KeyDistanceCompare(m, key, a, b, bits) <= 0 && KeyDistanceCompare(m, key, b, c, bits) <= 0 ==>
              KeyDistanceCompare(m, key, a, c, bits) <= 0
    ensures m == XorMetric || m == CwRingMetric ==> (KeyDistanceCompare(m, key, a, b, bits) == 0 <==> a == b)
  {
    XorSymmetric(a, key);
    XorSymmetric(b, key);
    XorCancels(key, a);
    XorCancels(key, b);
    CwIsIfBelow(a, key, bits);
    CwIsIfBelow(b, key, bits);
  }

  /** The other two metrics tie exactly for keys on both sides. */
  lemma TiesAreMirrored(key: nat, a: nat, b: nat, bits: nat)
    requires key < Pow2(bits) && a < Pow2(bits) && b < Pow2(bits)
    ensures KeyDistanceCompare(StdMetric, key, a, b, bits) == 0 <==> a == b || a + b == 2 * key
    ensures KeyDistanceCompare(RingMetric, key, a, b, bits) == 0 <==> a == b || Cw(key, a, bits) == Cw(b, key, bits)
  {
    CwIsIfBelow(a, key, bits);
    CwIsIfBelow(b, key, bits);
    CwIsIfBelow(key, a, bits);
    CwIsIfBelow(key, b, bits);
    hide Cw, Pow2, Mod;
  }

  // ----- proximities

  datatype Prox = Prox(proximity: real, accuracy: real)

  predicate Trusted(p: Prox) {
    p.accuracy >= 0.5
  }

  function StdProxCompare(lhs: Prox, rhs: Prox): int {
    if lhs.accuracy < 0.5 || rhs.accuracy < 0.5 then 0
    else if lhs.proximity < rhs.proximity then -1
    else if lhs.proximity > rhs.proximity then 1
    else 0
  }

  /** The nearer one of two accurate proximities is the better one. */
  lemma NearerIsBetter(lhs: Prox, rhs: Prox)
    ensures StdProxCompare(lhs, rhs) == -1
            <==> lhs.accuracy >= 0.5 && rhs.accuracy >= 0.5 && lhs.proximity < rhs.proximity
    ensures StdProxCompare(lhs, rhs) == 1
            <==> lhs.accuracy >= 0.5 && rhs.accuracy >= 0.5 && rhs.proximity < lhs.proximity
    ensures StdProxCompare(lhs, rhs) in {-1, 0, 1}
  {
  }

  /** KademliaPRComparator: the distances of the keys first, and the proximities only if they are equal. */
  function PrCompare(left: nat, lhs: Prox, right: nat, rhs: Prox): int {
    var temp := Sign(left - right);
    if temp != 0 then temp else StdProxCompare(lhs, rhs)
  }

  lemma PrIsLexicographic(left: nat, lhs: Prox, right: nat, rhs: Prox)
    ensures PrCompare(left, lhs, right, rhs) == -1
            <==> left < right || (left == right && lhs.accuracy >= 0.5 && rhs.accuracy >= 0.5
                                  && lhs.proximity < rhs.proximity)
    ensures PrCompare(left, lhs, right, rhs) == 1
            <==> left > right || (left == right && lhs.accuracy >= 0.5 && rhs.accuracy >= 0.5
                                  && lhs.proximity > rhs.proximity)
    ensures PrCompare(left, lhs, right, rhs) in {-1, 0, 1}
  {
  }

  /** Proximities without enough accuracy tie with everything, so ties are not transitive: of two that tie with a third
      one, one may be better. That happens exactly if the third one, and it alone, is not accurate enough. */
  lemma TiesThroughInaccuracy(a: Prox, b: Prox, c: Prox)
    ensures StdProxCompare(a, b) == 0 && StdProxCompare(b, c) == 0 && StdProxCompare(a, c) != 0
            <==> !Trusted(b) && Trusted(a) && Trusted(c) && a.proximity != c.proximity
  {
  }

  /** The comparator orders a set of proximities transitively if and only if all of them are accurate enough or the
      accurate ones are all equal. */
  lemma OrderIfAccurate(s: set<Prox>)
    ensures (forall a, b, c :: a in s && b in s && c in s && StdProxCompare(a, b) <= 0 && StdProxCompare(b, c) <= 0 ==>
               StdProxCompare(a, c) <= 0)
            <==> (forall a :: a in s ==> Trusted(a))
                 || (forall a, c :: a in s && c in s && Trusted(a) && Trusted(c) ==> a.proximity == c.proximity)
  {
  }
}
