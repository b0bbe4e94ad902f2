/** The bitwise operators on natural numbers, and on the limbs that represent them. */
module Bitwise {
  import opened Limbs
  import opened Wrappers

  datatype BitOp = XorOp | OrOp | AndOp

  /** The lowest bit. */
  function LowBit(op: BitOp, a: nat, b: nat): (r: nat)
    ensures r <= 1
  {
    var (x, y) := (a % 2 == 1, b % 2 == 1);
    if (match op case XorOp => x != y case OrOp => x || y case AndOp => x && y) then 1 else 0
  }

  function Combine(op: BitOp, a: nat, b: nat): (r: nat)
    decreases a + b
  {
    if a == 0 && b == 0 then 0 else LowBit(op, a, b) + 2 * Combine(op, a / 2, b / 2)
  }

  function Xor(a: nat, b: nat): nat {
    Combine(XorOp, a, b)
  }

  predicate BitAt(a: nat, k: nat) {
    if k == 0 then a % 2 == 1 else BitAt(a / 2, k - 1)
  }

  /** Bit k is what dividing by 2^k makes the lowest bit. */
  lemma {:induction false} BitAtIs(a: nat, k: nat)
    ensures BitAt(a, k) <==> a / Pow2(k) % 2 == 1
  {
    if k > 0 {
      BitAtIs(a / 2, k - 1);
      HalfThen(a, Pow2(k - 1));
    }
  }

  lemma HalfThen(a: nat, d: nat)
    requires d > 0
    ensures a / 2 / d == a / (2 * d)
  {
    var y, z := a / 2, a / 2 / d;
    DivMod(y, d);
    DividedTwice(a, 2, d, y, a % 2, z, y % d);
    Quotient(a, 2 * d, z, 2 * (y % d) + a % 2);
  }

  lemma CombineSplits(op: BitOp, a: nat, b: nat)
    ensures Combine(op, a, b) % 2 == LowBit(op, a, b) && Combine(op, a, b) / 2 == Combine(op, a / 2, b / 2)
  {
  }

  /** Every bit of the result depends on the bits at its own position alone. */
  lemma {:induction false} CombineAt(a: nat, b: nat, k: nat)
    ensures BitAt(Combine(XorOp, a, b), k) <==> BitAt(a, k) != BitAt(b, k)
    ensures BitAt(Combine(OrOp, a, b), k) <==> BitAt(a, k) || BitAt(b, k)
    ensures BitAt(Combine(AndOp, a, b), k) <==> BitAt(a, k) && BitAt(b, k)
  {
    CombineSplits(XorOp, a, b);
    CombineSplits(OrOp, a, b);
    CombineSplits(AndOp, a, b);
    hide Combine;
    if k > 0 {
      CombineAt(a / 2, b / 2, k - 1);
    }
  }

  /** Binary addition: the sum is the exclusive or and twice the carries, and common bits are counted twice. */
  lemma {:induction false} OperatorsAdd(a: nat, b: nat)
    ensures a + b == Combine(XorOp, a, b) + 2 * Combine(AndOp, a, b) == Combine(OrOp, a, b) + Combine(AndOp, a, b)
    decreases a + b
  {
    if a != 0 || b != 0 {
      OperatorsAdd(a / 2, b / 2);
    }
  }

  lemma {:induction false} XorSymmetric(a: nat, b: nat)
    ensures Xor(a, b) == Xor(b, a)
    decreases a + b
  {
    if a != 0 || b != 0 {
      XorSymmetric(a / 2, b / 2);
    }
  }

  lemma {:induction false} XorZero(a: nat, b: nat)
    ensures Xor(a, b) == 0 <==> a == b
    decreases a + b
  {
    if a != 0 || b != 0 {
      XorZero(a / 2, b / 2);
    }
  }

  lemma {:induction false} XorCancels(a: nat, b: nat)
    ensures Xor(a, Xor(a, b)) == b
    decreases a + b
  {
    if a != 0 || b != 0 {
      XorCancels(a / 2, b / 2);
    }
  }

  lemma {:induction false} XorTriangle(a: nat, b: nat, c: nat)
    ensures Xor(a, c) <= Xor(a, b) + Xor(b, c)
    decreases a + b + c
  {
    if a != 0 || b != 0 || c != 0 {
      XorTriangle(a / 2, b / 2, c / 2);
    }
  }

  function Product(a: nat, b: nat): nat {
    a * b
  }

  lemma ProductDoubles(a: nat, b: nat)
    ensures Product(2 * a, b) == 2 * Product(a, b)
  {
  }

  lemma {:induction false} CombineBelow(op: BitOp, k: nat, x: nat, y: nat)
    requires x < Pow2(k) && y < Pow2(k)
    ensures Combine(op, x, y) < Pow2(k)
  {
    if k > 0 {
      CombineBelow(op, k - 1, x / 2, y / 2);
    }
  }

  /** No operator mixes lower and higher bits. */
  lemma {:induction false} CombineSplit(op: BitOp, k: nat, x: nat, u: nat, y: nat, v: nat)
    requires x < Pow2(k) && y < Pow2(k)
    ensures Combine(op, x + Product(Pow2(k), u), y + Product(Pow2(k), v))
            == Combine(op, x, y) + Product(Pow2(k), Combine(op, u, v))
  {
    if k == 0 {
      assert x == y == 0;
    } else {
      var p := Pow2(k - 1);
      assert Pow2(k) == 2 * p;
      hide Combine, LowBit, Pow2, Product;
      CombineSplit(op, k - 1, x / 2, u, y / 2, v);
      ProductDoubles(p, u);
      ProductDoubles(p, v);
      ProductDoubles(p, Combine(op, u, v));
      CombineHalves(op, x, Product(p, u), y, Product(p, v));
      CombineHalves(op, x, 0, y, 0);
    }
  }

  lemma CombineHalves(op: BitOp, x: nat, u: nat, y: nat, v: nat)
    ensures Combine(op, x + 2 * u, y + 2 * v) == LowBit(op, x, y) + 2 * Combine(op, x / 2 + u, y / 2 + v)
  {
    assert (x + 2 * u) / 2 == x / 2 + u && (y + 2 * v) / 2 == y / 2 + v;
  }

  function CombineLimb(op: BitOp, x: Limb, y: Limb): (r: Limb) {
    Pow32();
    CombineBelow(op, 32, x, y);
    Combine(op, x, y)
  }

  function CombineLimbs(op: BitOp, s: seq<Limb>, t: seq<Limb>): (r: seq<Limb>)
    requires |s| == |t|
    ensures |r| == |s|
  {
    if s == [] then [] else [CombineLimb(op, s[0], t[0])] + CombineLimbs(op, s[1..], t[1..])
  }

  /** Limb by limb is number by number. */
  lemma {:induction false} CombineLimbsIs(op: BitOp, s: seq<Limb>, t: seq<Limb>)
    requires |s| == |t|
    ensures Value(CombineLimbs(op, s, t)) == Combine(op, Value(s), Value(t))
  {
    if s != [] {
      CombineLimbsIs(op, s[1..], t[1..]);
      Pow32();
      assert CombineLimbs(op, s, t)[1..] == CombineLimbs(op, s[1..], t[1..]);
      hide Combine, Pow2;
      CombineSplit(op, 32, s[0], Value(s[1..]), t[0], Value(t[1..]));
    }
  }

  lemma {:induction false} CombineLimbsAt(op: BitOp, s: seq<Limb>, t: seq<Limb>, i: nat)
    requires |s| == |t| && i < |s|
    ensures CombineLimbs(op, s, t)[i] == CombineLimb(op, s[i], t[i])
  {
    if i > 0 {
      CombineLimbsAt(op, s[1..], t[1..], i - 1);
    }
  }

  method CombineInPlace(op: BitOp, a: array<Limb>, b: array<Limb>)
    requires a.Length == b.Length
    modifies a
    ensures a[..] == CombineLimbs(op, old(a[..]), old(b[..]))
  {
    ghost var s, t := a[..], b[..];
    hide CombineLimb, CombineLimbs;
    for i := 0 to a.Length
      invariant a[i..] == s[i..] && b[i..] == t[i..]
      invariant forall j :: 0 <= j < i ==> a[j] == CombineLimb(op, s[j], t[j])
    {
      assert a[i] == a[i..][0] && b[i] == b[i..][0] && a[i + 1..] == a[i..][1..] && b[i + 1..] == b[i..][1..];
      a[i] := CombineLimb(op, a[i], b[i]);
    }
    forall i | 0 <= i < a.Length
      ensures a[..][i] == CombineLimbs(op, s, t)[i]
    {
      CombineLimbsAt(op, s, t, i);
    }
  }

  // ----- complement

  function NotLimbs(s: seq<Limb>): (r: seq<Limb>)
    ensures |r| == |s| && forall i :: 0 <= i < |s| ==> r[i] == BASE - 1 - s[i]
  {
    if s == [] then [] else [BASE - 1 - s[0]] + NotLimbs(s[1..])
  }

  lemma {:induction false} NotLimbsIs(s: seq<Limb>)
    ensures Value(NotLimbs(s)) == BasePow(|s|) - 1 - Value(s)
  {
    if s != [] {
      NotLimbsIs(s[1..]);
      assert NotLimbs(s)[1..] == NotLimbs(s[1..]);
    }
  }

  method NotInPlace(a: array<Limb>)
    modifies a
    ensures a[..] == NotLimbs(old(a[..]))
  {
    ghost var s := a[..];
    for i := 0 to a.Length
      invariant a[i..] == s[i..]
      invariant forall j :: 0 <= j < i ==> a[j] == BASE - 1 - s[j]
    {
      assert a[i] == a[i..][0] && a[i + 1..] == a[i..][1..];
      a[i] := BASE - 1 - a[i];
    }
  }
}
