/** Natural numbers as sequences of 32-bit limbs, least significant first, and the loops of GMP's mpn_* functions over
    them. */
module Limbs {
  import opened Wrappers

  const BASE: int := 0x1_0000_0000

  const LIMB_BITS: nat := 32

  type Limb = x: int | 0 <= x < BASE

  function BasePow(n: nat): (p: nat)
    ensures p > 0
  {
    if n == 0 then 1 else BASE * BasePow(n - 1)
  }

  function Value(s: seq<Limb>): (v: nat) {
    if s == [] then 0 else s[0] + BASE * Value(s[1..])
  }

  // ----- powers

  lemma {:induction false} PowAdd(a: nat, b: nat)
    ensures Pow2(a + b) == Pow2(a) * Pow2(b)
  {
    if a > 0 {
      PowAdd(a - 1, b);
      assert 2 * (Pow2(a - 1) * Pow2(b)) == (2 * Pow2(a - 1)) * Pow2(b);
    }
  }

  lemma Pow32()
    ensures Pow2(32) == BASE
  {
    assert Pow2(4) == 16 by {
      assert Pow2(2) == 4;
      PowAdd(2, 2);
    }
    PowAdd(4, 4);
    PowAdd(8, 8);
    PowAdd(16, 16);
    hide Pow2;
    assert Pow2(8) == 256 && Pow2(16) == 65536;
  }

  lemma {:induction false} BasePowIs(n: nat)
    ensures BasePow(n) == Pow2(LIMB_BITS * n)
  {
    if n > 0 {
      BasePowIs(n - 1);
      Pow32();
      PowAdd(32, LIMB_BITS * (n - 1));
    }
  }

  lemma {:induction false} PowMonotonic(a: nat, b: nat)
    requires a <= b
    ensures Pow2(a) <= Pow2(b)
    decreases b
  {
    if a < b {
      PowMonotonic(a, b - 1);
    }
  }

  // ----- division

  function Div(x: int, d: int): int
    requires d > 0
  {
    x / d
  }

  function Mod(x: int, d: int): (r: int)
    requires d > 0
    ensures 0 <= r < d
  {
    x % d
  }

  lemma DivMod(a: int, b: int)
    requires b > 0
    ensures a == b * Div(a, b) + Mod(a, b)
  {
  }

  /** Quotient and remainder are unique. */
  lemma Quotient(a: int, b: int, q: int, r: int)
    requires b > 0 && a == b * q + r && 0 <= r < b
    ensures Div(a, b) == q && Mod(a, b) == r
  {
    DivMod(a, b);
    hide Div, Mod;
    assert b * (Div(a, b) - q) == b * Div(a, b) - b * q;
    SmallMultiple(b, Div(a, b) - q);
  }

  /** Dividing by a and then by b. */
  lemma DividedTwice(v: int, a: int, b: int, y: int, r: int, z: int, t: int)
    requires a > 0 && b > 0 && v == a * y + r && 0 <= r < a && y == b * z + t && 0 <= t < b
    ensures a * b > 0 && v == (a * b) * z + (a * t + r) && 0 <= a * t + r < a * b
  {
    Distributes(a, b, z, t);
    ScaledBound(a, t, b);
  }

  lemma Distributes(a: int, b: int, z: int, t: int)
    ensures a * (b * z + t) == (a * b) * z + a * t
  {
  }

  lemma ScaledBound(a: int, t: int, b: int)
    requires a > 0 && 0 <= t < b
    ensures 0 <= a * t && a * t + a <= a * b && a * b > 0
  {
    assert a * (t + 1) <= a * b;
  }

  lemma ModMultiple(x: int, m: int, k: int)
    requires m > 0
    ensures Mod(x + m * k, m) == Mod(x, m)
  {
    DivMod(x, m);
    hide Div, Mod;
    assert m * Div(x, m) + m * k == m * (Div(x, m) + k);
    Quotient(x + m * k, m, Div(x, m) + k, Mod(x, m));
  }

  // ----- values

  lemma {:induction false} ValueBound(s: seq<Limb>)
    ensures Value(s) < BasePow(|s|)
  {
    if s != [] {
      ValueBound(s[1..]);
    }
  }

  lemma {:induction false} ValueAppend(s: seq<Limb>, t: seq<Limb>)
    ensures Value(s + t) == Value(s) + BasePow(|s|) * Value(t)
  {
    if s == [] {
      assert s + t == t;
    } else {
      ValueAppend(s[1..], t);
      assert (s + t)[1..] == s[1..] + t;
      Associates(BASE, BasePow(|s| - 1), Value(t));
    }
  }

  lemma Associates(a: int, b: int, c: int)
    ensures a * (b * c) == (a * b) * c
  {
  }

  lemma {:induction false} ValueInjective(s: seq<Limb>, t: seq<Limb>)
    requires |s| == |t| && Value(s) == Value(t)
    ensures s == t
  {
    if s != [] {
      ValueInjective(s[1..], t[1..]);
      assert s == [s[0]] + s[1..] && t == [t[0]] + t[1..];
    }
  }

  // ----- mpn_add_n and mpn_sub_n

  /** A carry out of n limbs. */
  function Carried(n: nat, carry: nat): nat {
    if carry == 0 then 0 else BasePow(n)
  }

  function AddLimb(x: Limb, y: Limb, carry: nat): (r: (Limb, nat))
    requires carry <= 1
    ensures r.0 + BASE * r.1 == x + y + carry && r.1 <= 1
  {
    var sum := x + y + carry;
    (sum % BASE, sum / BASE)
  }

  function SubLimb(x: Limb, y: Limb, borrow: nat): (r: (Limb, nat))
    requires borrow <= 1
    ensures r.0 - BASE * r.1 == x - y - borrow && r.1 <= 1
  {
    var diff := x - y - borrow;
    if diff < 0 then (diff + BASE, 1) else (diff, 0)
  }

  function Add(a: seq<Limb>, b: seq<Limb>, carry: nat): (r: (seq<Limb>, nat))
    requires |a| == |b| && carry <= 1
    ensures |r.0| == |a| && r.1 <= 1
    ensures Value(r.0) + Carried(|a|, r.1) == Value(a) + Value(b) + carry
  {
    if a == [] then ([], carry)
    else
      var (limb, next) := AddLimb(a[0], b[0], carry);
      var rest := Add(a[1..], b[1..], next);
      assert ([limb] + rest.0)[1..] == rest.0;
      ([limb] + rest.0, rest.1)
  }

  function Sub(a: seq<Limb>, b: seq<Limb>, borrow: nat): (r: (seq<Limb>, nat))
    requires |a| == |b| && borrow <= 1
    ensures |r.0| == |a| && r.1 <= 1
    ensures Value(r.0) - Carried(|a|, r.1) == Value(a) - Value(b) - borrow
  {
    if a == [] then ([], borrow)
    else
      var (limb, next) := SubLimb(a[0], b[0], borrow);
      var rest := Sub(a[1..], b[1..], next);
      assert ([limb] + rest.0)[1..] == rest.0;
      ([limb] + rest.0, rest.1)
  }

  lemma AddStep(s: seq<Limb>, t: seq<Limb>, done: seq<Limb>, carry: nat, i: nat)
    requires |s| == |t| && i < |s| && carry <= 1
    requires var rest := Add(s[i..], t[i..], carry); (done + rest.0, rest.1) == Add(s, t, 0)
    ensures var (limb, next) := AddLimb(s[i], t[i], carry);
            var rest := Add(s[i + 1..], t[i + 1..], next);
            (done + [limb] + rest.0, rest.1) == Add(s, t, 0)
  {
    var (limb, next) := AddLimb(s[i], t[i], carry);
    assert s[i..][1..] == s[i + 1..] && t[i..][1..] == t[i + 1..];
    var rest := Add(s[i + 1..], t[i + 1..], next);
    assert Add(s[i..], t[i..], carry) == ([limb] + rest.0, rest.1);
    assert done + ([limb] + rest.0) == done + [limb] + rest.0;
  }

  lemma SubStep(s: seq<Limb>, t: seq<Limb>, done: seq<Limb>, borrow: nat, i: nat)
    requires |s| == |t| && i < |s| && borrow <= 1
    requires var rest := Sub(s[i..], t[i..], borrow); (done + rest.0, rest.1) == Sub(s, t, 0)
    ensures var (limb, next) := SubLimb(s[i], t[i], borrow);
            var rest := Sub(s[i + 1..], t[i + 1..], next);
            (done + [limb] + rest.0, rest.1) == Sub(s, t, 0)
  {
    var (limb, next) := SubLimb(s[i], t[i], borrow);
    assert s[i..][1..] == s[i + 1..] && t[i..][1..] == t[i + 1..];
    var rest := Sub(s[i + 1..], t[i + 1..], next);
    assert Sub(s[i..], t[i..], borrow) == ([limb] + rest.0, rest.1);
    assert done + ([limb] + rest.0) == done + [limb] + rest.0;
  }

  /** In place, and the operands may be the same array. */
  method MpnAddN(a: array<Limb>, b: array<Limb>) returns (carry: nat)
    requires a.Length == b.Length
    modifies a
    ensures (a[..], carry) == Add(old(a[..]), old(b[..]), 0)
  {
    carry := 0;
    ghost var s, t := a[..], b[..];
    assert a[..0] + Add(s, t, 0).0 == Add(s, t, 0).0;
    hide Add, AddLimb, Value, Carried;
    for i := 0 to a.Length
      invariant carry <= 1
      invariant a[i..] == s[i..] && b[i..] == t[i..]
      invariant var rest := Add(s[i..], t[i..], carry); (a[..i] + rest.0, rest.1) == Add(s, t, 0)
    {
      assert a[i] == a[i..][0] && b[i] == b[i..][0] && b[i + 1..] == b[i..][1..] && a[i + 1..] == a[i..][1..];
      AddStep(s, t, a[..i], carry, i);
      ghost var done := a[..i];
      var (limb, next) := AddLimb(a[i], b[i], carry);
      a[i], carry := limb, next;
      assert a[..i + 1] == done + [a[i]];
    }
    assert a[..] == a[..a.Length] + Add(s[a.Length..], t[a.Length..], carry).0;
  }

  method MpnSubN(a: array<Limb>, b: array<Limb>) returns (borrow: nat)
    requires a.Length == b.Length
    modifies a
    ensures (a[..], borrow) == Sub(old(a[..]), old(b[..]), 0)
  {
    borrow := 0;
    ghost var s, t := a[..], b[..];
    assert a[..0] + Sub(s, t, 0).0 == Sub(s, t, 0).0;
    hide Sub, SubLimb, Value, Carried;
    for i := 0 to a.Length
      invariant borrow <= 1
      invariant a[i..] == s[i..] && b[i..] == t[i..]
      invariant var rest := Sub(s[i..], t[i..], borrow); (a[..i] + rest.0, rest.1) == Sub(s, t, 0)
    {
      assert a[i] == a[i..][0] && b[i] == b[i..][0] && b[i + 1..] == b[i..][1..] && a[i + 1..] == a[i..][1..];
      SubStep(s, t, a[..i], borrow, i);
      ghost var done := a[..i];
      var (limb, next) := SubLimb(a[i], b[i], borrow);
      a[i], borrow := limb, next;
      assert a[..i + 1] == done + [a[i]];
    }
    assert a[..] == a[..a.Length] + Sub(s[a.Length..], t[a.Length..], borrow).0;
  }

  // ----- mpn_cmp

  function Sign(x: int): int {
    if x < 0 then -1 else if x > 0 then 1 else 0
  }

  /** The first difference from the most significant limb on decides. */
  method MpnCmp(a: array<Limb>, b: array<Limb>) returns (r: int)
    requires a.Length == b.Length
    ensures r == Sign(Value(a[..]) - Value(b[..]))
  {
    var i := a.Length;
    while i > 0
      invariant 0 <= i <= a.Length
      invariant a[i..] == b[i..]
    {
      i := i - 1;
      if a[i] != b[i] {
        DecidedAt(a[..], b[..], i);
        return if a[i] < b[i] then -1 else 1;
      }
      assert a[i..] == [a[i]] + a[i + 1..] && b[i..] == [b[i]] + b[i + 1..];
    }
    assert a[..] == a[0..] && b[..] == b[0..];
    return 0;
  }

  lemma DecidedAt(s: seq<Limb>, t: seq<Limb>, i: nat)
    requires |s| == |t| && i < |s| && s[i + 1..] == t[i + 1..] && s[i] != t[i]
    ensures if s[i] < t[i] then Value(s) < Value(t) else Value(s) > Value(t)
  {
    assert s == s[..i] + s[i..] && t == t[..i] + t[i..];
    ValueAppend(s[..i], s[i..]);
    ValueAppend(t[..i], t[i..]);
    ValueBound(s[..i]);
    ValueBound(t[..i]);
    var u, v, p := Value(s[i..]), Value(t[i..]), BasePow(i);
    assert if s[i] < t[i] then u < v else u > v;
    hide Value, BasePow;
    HigherLimbs(p, u, v, Value(s[..i]), Value(t[..i]));
    HigherLimbs(p, v, u, Value(t[..i]), Value(s[..i]));
  }

  lemma HigherLimbs(p: int, u: int, v: int, x: int, y: int)
    requires 0 <= x < p && 0 <= y < p
    ensures u < v ==> x + p * u < y + p * v
  {
    assert u < v ==> p * (u + 1) <= p * v;
  }

  // ----- mpn_rshift and mpn_lshift

  /** A shift by some bits of a limb splits it in two: p times q is the base. */
  ghost predicate Splits(p: int, q: int) {
    p > 0 && q > 0 && p * q == BASE
  }

  lemma PowSplits(c: nat)
    requires c <= 32
    ensures Splits(Pow2(c), Pow2(32 - c))
  {
    PowAdd(c, 32 - c);
    Pow32();
  }

  /** A limb shifted up; what does not fit falls off. */
  function ShiftUp(x: int, factor: int): (r: int)
    ensures 0 <= r < BASE
  {
    (x * factor) % BASE
  }

  /** The bits that a limb shifted by q moves up, after the others have fallen off. */
  lemma Truncated(x: int, p: int, q: int)
    requires Splits(p, q) && x >= 0
    ensures ShiftUp(x, q) == Mod(x, p) * q && 0 <= Mod(x, p) * q <= BASE - q
  {
    var k, m := x / p, x % p;
    assert x == p * k + m;
    assert x * q == (p * q) * k + m * q;
    assert 0 <= m * q <= (p - 1) * q;
    assert (p - 1) * q == BASE - q;
    Quotient(x * q, BASE, k, m * q);
  }

  lemma ShiftedLimb(x: Limb, p: int, q: int)
    requires Splits(p, q)
    ensures 0 <= Div(x, p) < q
  {
  }

  /** A limb and the low bits of the next one, shifted to the right. */
  function RightLimb(x: Limb, next: Limb, p: int, q: int): (r: Limb)
    requires Splits(p, q)
  {
    Truncated(next, p, q);
    ShiftedLimb(x, p, q);
    Div(x, p) + ShiftUp(next, q)
  }

  function Next(s: seq<Limb>, i: nat): Limb {
    if i + 1 < |s| then s[i + 1] else 0
  }

  function Right(s: seq<Limb>, p: int, q: int): (r: seq<Limb>)
    requires Splits(p, q)
    ensures |r| == |s|
  {
    if s == [] then [] else [RightLimb(s[0], Next(s, 0), p, q)] + Right(s[1..], p, q)
  }

  /** A limb and the high bits of the one below, shifted to the left. */
  function LeftLimb(x: Limb, below: Limb, p: int, q: int): (r: Limb)
    requires Splits(p, q)
  {
    Truncated(x, q, p);
    ShiftedLimb(below, q, p);
    ShiftUp(x, p) + Div(below, q)
  }

  function Left(s: seq<Limb>, p: int, q: int, below: Limb): (r: seq<Limb>)
    requires Splits(p, q)
    ensures |r| == |s|
  {
    if s == [] then [] else [LeftLimb(s[0], below, p, q)] + Left(s[1..], p, q, s[0])
  }

  /** A shift to the right divides. */
  lemma {:induction false} RightDivides(s: seq<Limb>, p: int, q: int)
    requires Splits(p, q)
    ensures Value(Right(s, p, q)) == Div(Value(s), p)
  {
    if s != [] {
      var rest := Value(s[1..]);
      RightDivides(s[1..], p, q);
      var next := if |s| > 1 then s[1] else 0;
      NextLimb(s, p, q);
      Truncated(next, p, q);
      assert Right(s, p, q)[1..] == Right(s[1..], p, q);
      DividedPair(s[0], rest, p, q);
    }
  }

  lemma NextLimb(s: seq<Limb>, p: int, q: int)
    requires Splits(p, q) && s != []
    ensures Mod(Value(s[1..]), p) == Mod(if |s| > 1 then s[1] else 0, p)
  {
    if |s| > 1 {
      var v := Value(s[1..][1..]);
      assert BASE * v == p * (q * v) by {
        Associates(p, q, v);
      }
      ModMultiple(s[1], p, q * v);
    }
  }

  lemma DividedPair(x: int, rest: int, p: int, q: int)
    requires Splits(p, q)
    ensures Div(x + BASE * rest, p) == Div(x, p) + Mod(rest, p) * q + BASE * Div(rest, p)
  {
    DivMod(x, p);
    DivMod(rest, p);
    hide Div, Mod;
    Associates(p, q, rest);
    DividedSum(p, q, Div(x, p), rest, Mod(rest, p), Div(rest, p));
    Quotient(x + BASE * rest, p, Div(x, p) + Mod(rest, p) * q + BASE * Div(rest, p), Mod(x, p));
  }

  lemma DividedSum(p: int, q: int, y: int, rest: int, t: int, z: int)
    requires rest == p * z + t
    ensures p * y + (p * q) * rest == p * (y + t * q + (p * q) * z)
  {
    assert q * rest == t * q + (p * q) * z;
    Distributes(p, 1, y, t * q + (p * q) * z);
    Associates(p, q, rest);
  }

  /** What a shift to the left moves out at the top. */
  function LeftOut(s: seq<Limb>, p: int, q: int, below: Limb): (r: int)
    requires Splits(p, q)
  {
    if s == [] then Div(below, q) else LeftOut(s[1..], p, q, s[0])
  }

  /** A shift to the left multiplies, but for what it moves out. */
  lemma {:induction false} LeftMultiplies(s: seq<Limb>, p: int, q: int, below: Limb)
    requires Splits(p, q)
    ensures Value(Left(s, p, q, below)) + BasePow(|s|) * LeftOut(s, p, q, below) == p * Value(s) + Div(below, q)
  {
    if s != [] {
      LeftMultiplies(s[1..], p, q, s[0]);
      assert Left(s, p, q, below)[1..] == Left(s[1..], p, q, s[0]);
      LeftPair(s[0], Value(s[1..]), Value(Left(s[1..], p, q, s[0])), BasePow(|s| - 1), LeftOut(s, p, q, below), p, q,
               Div(below, q));
    }
  }

  lemma LeftPair(x: Limb, v: int, w: int, b: int, out: int, p: int, q: int, low: int)
    requires Splits(p, q) && w + b * out == p * v + Div(x, q)
    ensures ShiftUp(x, p) + low + BASE * w + (BASE * b) * out == p * (x + BASE * v) + low
  {
    ShiftedLow(x, p, q);
    Associates(BASE, b, out);
    assert p * (x + BASE * v) == p * x + p * (BASE * v);
    Associates(p, BASE, v);
    Associates(BASE, p, v);
  }

  lemma ShiftedLow(x: Limb, p: int, q: int)
    requires Splits(p, q)
    ensures ShiftUp(x, p) + BASE * Div(x, q) == p * x
  {
    Truncated(x, q, p);
    assert x == q * (x / q) + x % q;
    assert x * p == (q * (x / q)) * p + (x % q) * p;
    Associates(p, q, x / q);
  }

  /** In place, from the least significant limb on: every limb takes the low bits of the next one. */
  method MpnRShift(a: array<Limb>, count: nat)
    requires 0 < count < 32
    modifies a
    ensures Splits(Pow2(count), Pow2(32 - count)) && a[..] == Right(old(a[..]), Pow2(count), Pow2(32 - count))
  {
    PowSplits(count);
    var p, q := Pow2(count), Pow2(32 - count);
    ghost var s := a[..];
    hide Right, RightLimb, Splits, Pow2, Value;
    for i := 0 to a.Length
      invariant a[i..] == s[i..]
      invariant a[..i] + Right(s[i..], p, q) == Right(s, p, q)
    {
      assert a[i] == s[i] && (i + 1 < a.Length ==> a[i + 1] == s[i + 1]);
      RightStep(s, a[..i], i, p, q);
      ghost var done := a[..i];
      a[i] := RightLimb(a[i], if i + 1 < a.Length then a[i + 1] else 0, p, q);
      assert a[..i + 1] == done + [a[i]];
    }
    assert a[..] == a[..a.Length] + Right(s[a.Length..], p, q);
  }

  lemma RightStep(s: seq<Limb>, done: seq<Limb>, i: nat, p: int, q: int)
    requires Splits(p, q) && i < |s| && done + Right(s[i..], p, q) == Right(s, p, q)
    ensures done + [RightLimb(s[i], Next(s, i), p, q)] + Right(s[i + 1..], p, q) == Right(s, p, q)
  {
    hide RightLimb, Splits;
    assert s[i..][1..] == s[i + 1..] && s[i..][0] == s[i] && Next(s[i..], 0) == Next(s, i);
    var limb, rest := RightLimb(s[i], Next(s, i), p, q), Right(s[i + 1..], p, q);
    assert done + ([limb] + rest) == done + [limb] + rest;
  }

  /** In place, from the most significant limb down: every limb takes the high bits of the one below. */
  method MpnLShift(a: array<Limb>, count: nat)
    requires 0 < count < 32
    modifies a
    ensures Splits(Pow2(count), Pow2(32 - count)) && a[..] == Left(old(a[..]), Pow2(count), Pow2(32 - count), 0)
  {
    PowSplits(count);
    var p, q := Pow2(count), Pow2(32 - count);
    ghost var s := a[..];
    var i := a.Length;
    hide LeftLimb, Splits, Pow2, Value;
    while i > 0
      invariant 0 <= i <= a.Length
      invariant a[..i] == s[..i]
      invariant a[i..] == Left(s[i..], p, q, Below(s, i))
    {
      i := i - 1;
      assert a[i] == s[i] && (i > 0 ==> a[i - 1] == s[i - 1]);
      assert s[i..][1..] == s[i + 1..];
      ghost var done := a[i + 1..];
      a[i] := LeftLimb(a[i], if i > 0 then a[i - 1] else 0, p, q);
      assert a[i..] == [a[i]] + done;
    }
    assert a[..] == a[0..] && s == s[0..];
  }

  function Below(s: seq<Limb>, i: nat): Limb
    requires i <= |s|
  {
    if i > 0 then s[i - 1] else 0
  }

  // ----- the limbs of a key of some bits

  /** The number of limbs of a key. */
  function Words(bits: nat): (n: nat)
    ensures bits > 0 ==> n > 0 && LIMB_BITS * (n - 1) < bits <= LIMB_BITS * n
  {
    bits / LIMB_BITS + if bits % LIMB_BITS != 0 then 1 else 0
  }

  /** The bits of the most significant limb. */
  function TopBits(bits: nat): (m: nat)
    requires bits > 0
    ensures 0 < m <= LIMB_BITS && bits == LIMB_BITS * (Words(bits) - 1) + m
  {
    if bits % LIMB_BITS == 0 then LIMB_BITS else bits % LIMB_BITS
  }

  lemma CutIsSmaller(x: nat, m: int)
    requires m > 0
    ensures 0 <= Mod(x, m) <= x
  {
  }

  /** The most significant limb is cut to its bits. */
  function Trimmed(s: seq<Limb>, bits: nat): (r: seq<Limb>)
    requires bits > 0 && |s| == Words(bits)
    ensures |r| == |s|
  {
    var top := s[|s| - 1];
    CutIsSmaller(top, Pow2(TopBits(bits)));
    s[|s| - 1 := Mod(top, Pow2(TopBits(bits)))]
  }

  /** Trimming is the remainder for the number of keys. */
  lemma TrimmedIs(s: seq<Limb>, bits: nat)
    requires bits > 0 && |s| == Words(bits)
    ensures Value(Trimmed(s, bits)) == Mod(Value(s), Pow2(bits))
  {
    hide Mod, Pow2, BasePow;
    var n, m := |s| - 1, Pow2(TopBits(bits));
    var low, top, p := s[..n], s[n], BasePow(n);
    CutIsSmaller(top, m);
    var cut: Limb := Mod(top, m);
    assert s == low + [top] && Trimmed(s, bits) == low + [cut];
    ValueAppend(low, [top]);
    ValueAppend(low, [cut]);
    assert Value([top]) == top && Value([cut]) == cut;
    ValueBound(low);
    BasePowIs(n);
    PowAdd(LIMB_BITS * n, TopBits(bits));
    hide Value, Trimmed;
    TopRemainder(Value(low), p, top, m);
  }

  lemma TopRemainder(low: nat, p: int, top: nat, m: int)
    requires low < p && m > 0
    ensures p * m > 0 && low + p * Mod(top, m) == Mod(low + p * top, p * m)
  {
    var k, r := top / m, top % m;
    assert p * m > 0;
    assert top == m * k + r;
    assert p * top == p * (m * k) + p * r;
    Associates(p, m, k);
    assert p * (r + 1) <= p * m;
    assert p * r >= 0;
    Quotient(low + p * top, p * m, k, low + p * r);
  }
}
