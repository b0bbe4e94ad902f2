/** Keys on a ring of 2^keyLength (src/common/OverlayKey.cc): arrays of 32-bit limbs, whose operators are arithmetic
    modulo 2^keyLength, and the intervals of the ring. */
module OverlayKey {
  import opened Limbs
  import opened Wrappers
  import opened Bitwise

  // ----- limbs of a key and numbers modulo 2^bits

  /** The ring fits into its limbs a whole number of times. */
  lemma RingDivides(bits: nat) returns (k: nat)
    requires bits > 0
    ensures BasePow(Words(bits)) == Pow2(bits) * k && k > 0
  {
    var rest := LIMB_BITS * Words(bits) - bits;
    BasePowIs(Words(bits));
    PowAdd(bits, rest);
    k := Pow2(rest);
  }

  lemma SmallMod(x: int, m: int)
    requires 0 <= x < m
    ensures Mod(x, m) == x
  {
  }

  lemma Congruent(x: int, y: int, m: int, k: int)
    requires m > 0 && x == y + m * k
    ensures Mod(x, m) == Mod(y, m)
  {
    ModMultiple(y, m, k);
  }

  /** Whatever is carried out of the limbs vanishes modulo the ring. */
  lemma CarryVanishes(x: int, y: int, bits: nat)
    requires bits > 0 && (y == x || y == x + BasePow(Words(bits)) || y == x - BasePow(Words(bits)))
    ensures Mod(x, Pow2(bits)) == Mod(y, Pow2(bits))
  {
    var k := RingDivides(bits);
    hide Pow2, BasePow, Words, Mod;
    if y == x + BasePow(Words(bits)) {
      Congruent(y, x, Pow2(bits), k);
    } else if y == x - BasePow(Words(bits)) {
      Congruent(x, y, Pow2(bits), k);
    }
  }

  lemma AddIsModular(s: seq<Limb>, t: seq<Limb>, bits: nat)
    requires bits > 0 && |s| == |t| == Words(bits)
    ensures Value(Trimmed(Add(s, t, 0).0, bits)) == Mod(Value(s) + Value(t), Pow2(bits))
  {
    hide Mod, Pow2, BasePow, Add, Value, Trimmed, Words;
    TrimmedIs(Add(s, t, 0).0, bits);
    CarryVanishes(Value(Add(s, t, 0).0), Value(s) + Value(t), bits);
  }

  lemma SubIsModular(s: seq<Limb>, t: seq<Limb>, bits: nat)
    requires bits > 0 && |s| == |t| == Words(bits)
    ensures Value(Trimmed(Sub(s, t, 0).0, bits)) == Mod(Value(s) - Value(t), Pow2(bits))
  {
    hide Mod, Pow2, BasePow, Sub, Value, Trimmed, Words;
    TrimmedIs(Sub(s, t, 0).0, bits);
    CarryVanishes(Value(Sub(s, t, 0).0), Value(s) - Value(t), bits);
  }

  lemma CombineIsBelow(op: BitOp, a: nat, b: nat, bits: nat)
    requires a < Pow2(bits) && b < Pow2(bits)
    ensures Combine(op, a, b) < Pow2(bits)
  {
    CombineBelow(op, bits, a, b);
  }

  lemma NotIsModular(s: seq<Limb>, bits: nat)
    requires bits > 0 && |s| == Words(bits)
    ensures Value(Trimmed(NotLimbs(s), bits)) == Mod(-1 - Value(s), Pow2(bits))
  {
    hide Mod, Pow2, BasePow, NotLimbs, Value, Trimmed, Words;
    NotLimbsIs(s);
    TrimmedIs(NotLimbs(s), bits);
    CarryVanishes(Value(NotLimbs(s)), -1 - Value(s), bits);
  }

  // ----- shifts

  function Zeros(n: nat): (r: seq<Limb>)
    ensures |r| == n && forall i :: 0 <= i < n ==> r[i] == 0
  {
    seq(n, _ => 0)
  }

  lemma ZeroValue(n: nat)
    ensures Value(Zeros(n)) == 0
  {
    ZeroLimbs(Zeros(n));
  }

  lemma DropLimbs(s: seq<Limb>, n: nat)
    requires n <= |s|
    ensures Value(s[n..] + Zeros(n)) == Div(Value(s), BasePow(n))
  {
    assert s == s[..n] + s[n..];
    ValueAppend(s[..n], s[n..]);
    ValueBound(s[..n]);
    ValueAppend(s[n..], Zeros(n));
    ZeroValue(n);
    Quotient(Value(s), BasePow(n), Value(s[n..]), Value(s[..n]));
  }

  lemma RaiseLimbs(s: seq<Limb>, n: nat)
    requires n <= |s|
    ensures Value(Zeros(n) + s[..|s| - n]) == Mod(BasePow(n) * Value(s), BasePow(|s|))
  {
    hide *;
    var m, t := |s| - n, Zeros(n) + s[..|s| - n];
    assert s == s[..m] + s[m..];
    ValueAppend(s[..m], s[m..]);
    ValueAppend(Zeros(n), s[..m]);
    ZeroValue(n);
    ValueBound(t);
    BasePowAdd(n, m);
    RaisedPair(BasePow(n), BasePow(m), BasePow(|s|), Value(s[..m]), Value(s[m..]));
  }

  lemma RaisedPair(p: int, q: int, b: int, low: nat, high: nat)
    requires p > 0 && b > 0 && p * q == b && p * low < b
    ensures p * low == Mod(p * (low + q * high), b)
  {
    Associates(p, q, high);
    assert p * (low + q * high) == p * low + p * (q * high);
    Quotient(p * (low + q * high), b, high, p * low);
  }

  lemma {:induction false} BasePowAdd(a: nat, b: nat)
    ensures BasePow(a) * BasePow(b) == BasePow(a + b)
  {
    if a > 0 {
      BasePowAdd(a - 1, b);
      Associates(BASE, BasePow(a - 1), BasePow(b));
    }
  }

  /** Dividing twice is dividing once. */
  lemma DivDiv(x: nat, a: int, b: int)
    requires a > 0 && b > 0 && a * b > 0
    ensures Div(Div(x, a), b) == Div(x, a * b)
  {
    DivMod(x, a);
    DivMod(Div(x, a), b);
    hide Div, Mod;
    DividedTwice(x, a, b, Div(x, a), Mod(x, a), Div(Div(x, a), b), Mod(Div(x, a), b));
    Quotient(x, a * b, Div(Div(x, a), b), a * Mod(Div(x, a), b) + Mod(x, a));
  }

  /** Limbs first and then bits: a shift to the right by all of them. */
  lemma ShiftedRight(s: seq<Limb>, i: nat, count: nat)
    requires i <= |s| && 0 < count < 32
    ensures Splits(Pow2(count), Pow2(32 - count))
    ensures Value(Right(s[i..] + Zeros(i), Pow2(count), Pow2(32 - count))) == Div(Value(s), Pow2(LIMB_BITS * i + count))
  {
    PowSplits(count);
    DropLimbs(s, i);
    RightDivides(s[i..] + Zeros(i), Pow2(count), Pow2(32 - count));
    BasePowIs(i);
    PowAdd(LIMB_BITS * i, count);
    DivDiv(Value(s), BasePow(i), Pow2(count));
  }

  lemma ShiftedOut(s: seq<Limb>, num: nat)
    requires num / LIMB_BITS >= |s|
    ensures Div(Value(s), Pow2(num)) == 0
  {
    ValueBound(s);
    BasePowIs(|s|);
    PowMonotonic(LIMB_BITS * |s|, num);
    Quotient(Value(s), Pow2(num), 0, Value(s));
  }

  /** Limbs first and then bits: a shift to the left by all of them, on the ring. */
  lemma ShiftedLeft(s: seq<Limb>, i: nat, count: nat, bits: nat)
    requires bits > 0 && |s| == Words(bits) && i <= |s| && 0 < count < 32
    ensures Splits(Pow2(count), Pow2(32 - count))
    ensures Mod(Value(Left(Zeros(i) + s[..|s| - i], Pow2(count), Pow2(32 - count), 0)), Pow2(bits))
            == Mod(Value(s) * Pow2(LIMB_BITS * i + count), Pow2(bits))
  {
    PowSplits(count);
    var p, q, r, t := Pow2(count), Pow2(32 - count), BasePow(i), Zeros(i) + s[..|s| - i];
    hide *;
    RaiseLimbs(s, i);
    LeftMultiplies(t, p, q, 0);
    DivZero(q);
    BasePowIs(i);
    PowAdd(LIMB_BITS * i, count);
    var k := RingDivides(bits);
    RaisedMod(Value(s), r, BasePow(|s|), p, Value(t), LeftOut(t, p, q, 0), Value(Left(t, p, q, 0)), Pow2(bits), k);
    Rearranged(Value(s), r, p);
  }

  lemma DivZero(q: int)
    requires q > 0
    ensures Div(0, q) == 0
  {
  }

  lemma Rearranged(v: int, r: int, p: int)
    ensures v * (r * p) == (p * r) * v == (r * p) * v
  {
  }

  lemma RaisedMod(v: int, r: int, b: int, p: int, raised: int, out: int, w: int, m: int, k: int)
    requires b > 0 && m > 0 && b == m * k && raised == Mod(r * v, b) && w + b * out == p * raised
    ensures Mod(w, m) == Mod((p * r) * v, m)
  {
    var j := (r * v) / b;
    assert raised == r * v - b * j;
    assert p * raised == p * (r * v) - p * (b * j);
    Associates(p, r, v);
    assert p * (b * j) == b * (p * j);
    assert b * (p * j) + b * out == b * (p * j + out);
    Associates(m, k, p * j + out);
    Congruent((p * r) * v, w, m, k * (p * j + out));
  }

  // ----- ranges of bits

  lemma TopLimbs(s: seq<Limb>, i: nat)
    requires i < |s|
    ensures Div(Value(s), BasePow(i)) == s[i] + BASE * Value(s[i + 1..])
  {
    assert s == s[..i] + s[i..] && s[i..][1..] == s[i + 1..];
    ValueAppend(s[..i], s[i..]);
    ValueBound(s[..i]);
    Quotient(Value(s), BasePow(i), Value(s[i..]), Value(s[..i]));
  }

  /** The bits from p on, of which at most 32 are wanted, are found in two limbs. */
  lemma BitRange(s: seq<Limb>, i: nat, f: nat, n: nat)
    requires i < |s| && f < 32 && 0 < n <= 32
    ensures Splits(Pow2(f), Pow2(32 - f))
    ensures Mod(Div(Value(s), Pow2(LIMB_BITS * i + f)), Pow2(n))
            == Mod(RightLimb(s[i], Next(s, i), Pow2(f), Pow2(32 - f)), Pow2(n))
  {
    PowSplits(f);
    var p, q, m, rest := Pow2(f), Pow2(32 - f), Pow2(n), Value(s[i + 1..]);
    BasePowIs(i);
    PowAdd(LIMB_BITS * i, f);
    DivDiv(Value(s), BasePow(i), p);
    TopLimbs(s, i);
    DividedPair(s[i], rest, p, q);
    NextLimb(s[i..], p, q);
    assert s[i..][1..] == s[i + 1..];
    Truncated(Next(s, i), p, q);
    PowSplits(n);
    hide Mod, Div, Value, Pow2, BasePow, ShiftUp;
    Associates(m, Pow2(32 - n), Div(rest, p));
    Congruent(Div(s[i] + BASE * rest, p), RightLimb(s[i], Next(s, i), p, q), m, Pow2(32 - n) * Div(rest, p));
  }

  /** The next limb is not needed if the range ends in the first one. */
  lemma OneLimbRange(x: Limb, next: Limb, f: nat, n: nat)
    requires f < 32 && 0 < n && f + n <= 32
    ensures Splits(Pow2(f), Pow2(32 - f))
    ensures Mod(RightLimb(x, next, Pow2(f), Pow2(32 - f)), Pow2(n)) == Mod(Div(x, Pow2(f)), Pow2(n))
  {
    PowSplits(f);
    var p, q, m, r := Pow2(f), Pow2(32 - f), Pow2(n), Pow2(32 - f - n);
    Truncated(next, p, q);
    PowAdd(n, 32 - f - n);
    hide Mod, Div, Pow2, ShiftUp;
    assert Mod(next, p) * (m * r) == m * (r * Mod(next, p)) by {
      Rearranged(Mod(next, p), m, r);
      Associates(m, r, Mod(next, p));
    }
    Congruent(RightLimb(x, next, p, q), Div(x, p), m, r * Mod(next, p));
  }

  // ----- changing the bits below or above a position

  /** The lower bits of one limb under the higher bits of another: m is a power of two. */
  function MixLimb(high: Limb, low: Limb, m: int, q: int): (r: Limb)
    requires Splits(m, q)
    ensures Div(r, m) == Div(high, m) && Mod(r, m) == Mod(low, m)
  {
    DivMod(high, m);
    ShiftedLimb(high, m, q);
    ScaledBound(m, Div(high, m), q);
    Quotient(m * Div(high, m) + Mod(low, m), m, Div(high, m), Mod(low, m));
    m * Div(high, m) + Mod(low, m)
  }

  lemma HigherDiv(x: Limb, rest: nat, m: int, q: int)
    requires Splits(m, q)
    ensures Div(x + BASE * rest, m) == Div(x, m) + q * rest
    ensures Mod(x + BASE * rest, m) == Mod(x, m)
  {
    DivMod(x, m);
    Associates(m, q, rest);
    hide Div, Mod;
    assert m * (Div(x, m) + q * rest) == m * Div(x, m) + m * (q * rest);
    Quotient(x + BASE * rest, m, Div(x, m) + q * rest, Mod(x, m));
  }

  /** The limbs below bit 32 i + j of one number under those above it of another. */
  function Mixed(high: seq<Limb>, low: seq<Limb>, i: nat, j: nat): (r: seq<Limb>)
    requires |high| == |low| && i < |high| && j < LIMB_BITS
    ensures |r| == |high|
  {
    PowSplits(j);
    low[..i] + [MixLimb(high[i], low[i], Pow2(j), Pow2(32 - j))] + high[i + 1..]
  }

  lemma MixedIs(high: seq<Limb>, low: seq<Limb>, i: nat, j: nat)
    requires |high| == |low| && i < |high| && j < LIMB_BITS
    ensures Div(Value(Mixed(high, low, i, j)), Pow2(LIMB_BITS * i + j)) == Div(Value(high), Pow2(LIMB_BITS * i + j))
    ensures Mod(Value(Mixed(high, low, i, j)), Pow2(LIMB_BITS * i + j)) == Mod(Value(low), Pow2(LIMB_BITS * i + j))
  {
    PowSplits(j);
    var r, p, q := Mixed(high, low, i, j), Pow2(j), Pow2(32 - j);
    assert r[..i] == low[..i] && r[i + 1..] == high[i + 1..] && r[i] == MixLimb(high[i], low[i], p, q);
    BasePowIs(i);
    PowAdd(LIMB_BITS * i, j);
    hide *;
    BitsAre(r, i, p, q);
    BitsAre(high, i, p, q);
    BitsAre(low, i, p, q);
  }

  lemma BitsAre(s: seq<Limb>, i: nat, m: int, q: int)
    requires i < |s| && Splits(m, q)
    ensures BasePow(i) * m > 0 && Div(Value(s), BasePow(i) * m) == Div(s[i], m) + q * Value(s[i + 1..])
    ensures Mod(Value(s), BasePow(i) * m) == Mod(s[i], m) * BasePow(i) + Value(s[..i])
  {
    LimbsAbove(s, i);
    hide *;
    LimbBits(Value(s), BasePow(i), s[i], Value(s[i + 1..]), m, q);
  }

  lemma LimbBits(v: nat, b: int, x: Limb, rest: nat, m: int, q: int)
    requires b > 0 && Splits(m, q) && Div(v, b) == x + BASE * rest
    ensures b * m > 0 && Div(v, b * m) == Div(x, m) + q * rest && Mod(v, b * m) == Mod(x, m) * b + Mod(v, b)
  {
    HigherDiv(x, rest, m, q);
    hide Div, Mod;
    DivDiv(v, b, m);
    ModPair(v, b, m);
  }

  lemma LimbsAbove(s: seq<Limb>, i: nat)
    requires i < |s|
    ensures Div(Value(s), BasePow(i)) == s[i] + BASE * Value(s[i + 1..])
    ensures Mod(Value(s), BasePow(i)) == Value(s[..i])
  {
    assert s == s[..i] + s[i..] && s[i..][1..] == s[i + 1..];
    assert Value(s[i..]) == s[i] + BASE * Value(s[i + 1..]);
    hide Value, BasePow, Mod, Div;
    ValueAppend(s[..i], s[i..]);
    ValueBound(s[..i]);
    Quotient(Value(s), BasePow(i), Value(s[i..]), Value(s[..i]));
  }

  /** A number that agrees with one of the ring above some of its bits is on the ring. */
  lemma StaysOnRing(v: nat, w: nat, pos: nat, bits: nat)
    requires v < Pow2(bits) && pos <= bits && Div(w, Pow2(pos)) == Div(v, Pow2(pos))
    ensures w < Pow2(bits)
  {
    PowAdd(pos, bits - pos);
    DivMod(v, Pow2(pos));
    DivMod(w, Pow2(pos));
    hide Div, Mod, Pow2;
    var p, d := Pow2(pos), Div(v, Pow2(pos));
    SmallFactor(p, d, Pow2(bits - pos));
    ScaledBound(p, if d < 0 then 0 else d, Pow2(bits - pos));
  }

  lemma SmallFactor(p: int, d: int, q: int)
    requires p > 0 && p * d < p * q
    ensures d < q
  {
    assert d >= q ==> p * d >= p * q;
  }

  /** The bits below and above a position of a number that is cut to the ring. */
  lemma CutKeepsBits(x: nat, pos: nat, bits: nat)
    requires pos <= bits
    ensures Mod(Mod(x, Pow2(bits)), Pow2(pos)) == Mod(x, Pow2(pos))
    ensures Div(Mod(x, Pow2(bits)), Pow2(pos)) == Mod(Div(x, Pow2(pos)), Pow2(bits - pos))
  {
    PowAdd(pos, bits - pos);
    hide Div, Mod, Pow2;
    var p := Pow2(pos);
    ModPair(x, p, Pow2(bits - pos));
    Quotient(Mod(x, Pow2(bits)), p, Mod(Div(x, p), Pow2(bits - pos)), Mod(x, p));
  }

  /** The limbs of a source of random limbs. */
  function Drawn(n: nat, random: nat -> Limb): (s: seq<Limb>)
    ensures |s| == n && forall k :: 0 <= k < n ==> s[k] == random(k)
  {
    seq(n, k requires 0 <= k < n => random(k))
  }

  lemma PositionIs(pos: nat)
    ensures pos == LIMB_BITS * (pos / LIMB_BITS) + pos % LIMB_BITS
  {
  }

  /** The key under its suffix of random bits is on the ring. */
  lemma SuffixIs(s: seq<Limb>, drawn: seq<Limb>, pos: nat, bits: nat)
    requires |s| == |drawn| == Words(bits) && pos < bits && Value(s) < Pow2(bits) && pos / LIMB_BITS < |s|
    ensures var v := Value(Mixed(s, drawn, pos / LIMB_BITS, pos % LIMB_BITS));
            v < Pow2(bits) && Div(v, Pow2(pos)) == Div(Value(s), Pow2(pos))
                && Mod(v, Pow2(pos)) == Mod(Value(drawn), Pow2(pos))
  {
    hide *;
    var r := Mixed(s, drawn, pos / LIMB_BITS, pos % LIMB_BITS);
    MixedIs(s, drawn, pos / LIMB_BITS, pos % LIMB_BITS);
    PositionIs(pos);
    StaysOnRing(Value(s), Value(r), pos, bits);
  }

  lemma PrefixIs(s: seq<Limb>, drawn: seq<Limb>, pos: nat, bits: nat)
    requires |s| == |drawn| == Words(bits) && pos < bits && pos / LIMB_BITS < |s|
    ensures var v := Mod(Value(Mixed(drawn, s, pos / LIMB_BITS, pos % LIMB_BITS)), Pow2(bits));
            Mod(v, Pow2(pos)) == Mod(Value(s), Pow2(pos)) &&
            Div(v, Pow2(pos)) == Div(Mod(Value(drawn), Pow2(bits)), Pow2(pos))
  {
    hide *;
    var r := Mixed(drawn, s, pos / LIMB_BITS, pos % LIMB_BITS);
    MixedIs(drawn, s, pos / LIMB_BITS, pos % LIMB_BITS);
    PositionIs(pos);
    CutKeepsBits(Value(r), pos, bits);
    CutKeepsBits(Value(drawn), pos, bits);
  }

  /** Draws the bits below bit 32 i + j. */
  method DrawBelow(a: array<Limb>, i: nat, j: nat, random: nat -> Limb)
    requires i < a.Length && j < LIMB_BITS
    modifies a
    ensures a[..] == Mixed(old(a[..]), Drawn(a.Length, random), i, j)
  {
    PowSplits(j);
    hide MixLimb, Pow2;
    ghost var s := a[..];
    a[i] := MixLimb(a[i], random(i), Pow2(j), Pow2(32 - j));
    for k := 0 to i
      invariant forall l :: 0 <= l < k ==> a[l] == random(l)
      invariant a[i] == MixLimb(s[i], random(i), Pow2(j), Pow2(32 - j))
      invariant forall l :: i < l < a.Length ==> a[l] == s[l]
    {
      a[k] := random(k);
    }
    assert a[..] == Drawn(a.Length, random)[..i] + [MixLimb(s[i], random(i), Pow2(j), Pow2(32 - j))] + s[i + 1..];
  }

  /** Draws the bits from bit 32 i + j on. */
  method DrawAbove(a: array<Limb>, i: nat, j: nat, random: nat -> Limb)
    requires i < a.Length && j < LIMB_BITS
    modifies a
    ensures a[..] == Mixed(Drawn(a.Length, random), old(a[..]), i, j)
  {
    PowSplits(j);
    hide MixLimb, Pow2;
    ghost var s := a[..];
    a[i] := MixLimb(random(i), a[i], Pow2(j), Pow2(32 - j));
    var k := a.Length - 1;
    while k != i
      invariant i <= k < a.Length
      invariant forall l :: k < l < a.Length ==> a[l] == random(l)
      invariant a[i] == MixLimb(random(i), s[i], Pow2(j), Pow2(32 - j))
      invariant forall l :: 0 <= l < i ==> a[l] == s[l]
      decreases k
    {
      a[k] := random(k);
      k := k - 1;
    }
    assert a[..] == s[..i] + [MixLimb(random(i), s[i], Pow2(j), Pow2(32 - j))] + Drawn(a.Length, random)[i + 1..];
  }

  // ----- digits

  /** The bits of k digits. */
  function Exp(w: nat, k: nat): nat {
    w * k
  }

  lemma ExpNext(w: nat, k: nat)
    ensures Exp(w, k + 1) == Exp(w, k) + w
  {
  }

  /** The digits of w bits of a number, the most significant first. */
  function Digits(v: nat, w: nat, m: nat): (r: seq<nat>)
    ensures |r| == m
  {
    if m == 0 then [] else [Mod(Div(v, Pow2(Exp(w, m - 1))), Pow2(w))] + Digits(v, w, m - 1)
  }

  function Horner(d: seq<nat>, b: nat): nat {
    if d == [] then 0 else Horner(d[..|d| - 1], b) * b + d[|d| - 1]
  }

  lemma {:induction false} DigitAt(v: nat, w: nat, m: nat, i: nat)
    requires i < m
    ensures Digits(v, w, m)[i] == Mod(Div(v, Pow2(Exp(w, m - 1 - i))), Pow2(w))
  {
    if i > 0 {
      DigitAt(v, w, m - 1, i - 1);
    }
  }

  lemma {:induction false} HornerFront(x: nat, d: seq<nat>, w: nat)
    ensures Horner([x] + d, Pow2(w)) == x * Pow2(Exp(w, |d|)) + Horner(d, Pow2(w))
  {
    if d == [] {
      assert [x] + d == [x] && [x][..0] == [];
    } else {
      var front, last := d[..|d| - 1], d[|d| - 1];
      assert ([x] + d)[..|d|] == [x] + front;
      HornerFront(x, front, w);
      PowAdd(w, Exp(w, |front|));
      ExpNext(w, |front|);
      hide Horner, Pow2;
      HornerPair(x, Pow2(Exp(w, |front|)), Horner(front, Pow2(w)), Pow2(w), last);
    }
  }

  lemma HornerPair(x: int, p: int, h: int, b: int, last: int)
    ensures (x * p + h) * b + last == x * (b * p) + (h * b + last)
  {
  }

  /** The digits of a number give the number. */
  lemma {:induction false} HornerOfDigits(v: nat, w: nat, m: nat)
    requires w > 0
    ensures Horner(Digits(v, w, m), Pow2(w)) == Mod(v, Pow2(Exp(w, m)))
  {
    if m == 0 {
      Quotient(v, 1, v, 0);
    } else {
      HornerOfDigits(v, w, m - 1);
      HornerFront(Mod(Div(v, Pow2(Exp(w, m - 1))), Pow2(w)), Digits(v, w, m - 1), w);
      PowAdd(Exp(w, m - 1), w);
      ExpNext(w, m - 1);
      hide Horner, Pow2;
      ModPair(v, Pow2(Exp(w, m - 1)), Pow2(w));
    }
  }

  lemma ModPair(v: nat, p: int, b: int)
    requires p > 0 && b > 0
    ensures p * b > 0 && Mod(v, p * b) == Mod(Div(v, p), b) * p + Mod(v, p)
  {
    DivMod(v, p);
    DivMod(Div(v, p), b);
    hide Div, Mod;
    DividedTwice(v, p, b, Div(v, p), Mod(v, p), Div(Div(v, p), b), Mod(Div(v, p), b));
    Quotient(v, p * b, Div(Div(v, p), b), p * Mod(Div(v, p), b) + Mod(v, p));
  }

  class OverlayKey {
    const keyLength: nat
    const key: array<Limb>
    var isUnspec: bool

    ghost predicate Valid()
      reads this, key
    {
      keyLength > 0 && key.Length == Words(keyLength) && (!isUnspec ==> Number() < Pow2(keyLength))
    }

    ghost function Number(): (n: nat)
      reads key
    {
      Value(key[..])
    }

    /** An unspecified key. */
    constructor (keyLength: nat)
      requires keyLength > 0
      ensures Valid() && this.keyLength == keyLength && isUnspec && fresh(key)
    {
      this.keyLength, isUnspec := keyLength, true;
      key := new Limb[Words(keyLength)](_ => 0);
    }

    /** A key from an integer of one limb. */
    constructor FromNumber(keyLength: nat, num: Limb)
      requires keyLength > 0
      ensures Valid() && this.keyLength == keyLength && !isUnspec && fresh(key)
      ensures Number() == Mod(num, Pow2(keyLength))
    {
      this.keyLength, isUnspec := keyLength, false;
      key := new Limb[Words(keyLength)](_ => 0);
      new;
      key[0] := num;
      OneLimb(key[..], num);
      Trim();
    }

    constructor Copy(rhs: OverlayKey)
      requires rhs.Valid()
      ensures Valid() && keyLength == rhs.keyLength && isUnspec == rhs.isUnspec && fresh(key) && key[..] == rhs.key[..]
    {
      keyLength, isUnspec := rhs.keyLength, rhs.isUnspec;
      key := new Limb[rhs.key.Length](i requires 0 <= i < rhs.key.Length reads rhs.key => rhs.key[i]);
      new;
      assert key[..] == rhs.key[..];
    }

    method Trim()
      requires keyLength > 0 && key.Length == Words(keyLength)
      modifies key
      ensures key[..] == Trimmed(old(key[..]), keyLength)
      ensures Number() == Mod(old(Number()), Pow2(keyLength))
    {
      ghost var s := key[..];
      TrimmedIs(s, keyLength);
      var top := key.Length - 1;
      CutIsSmaller(key[top], Pow2(TopBits(keyLength)));
      hide Mod, Pow2;
      key[top] := Mod(key[top], Pow2(TopBits(keyLength)));
      assert key[..] == Trimmed(s, keyLength);
    }

    /** The sum modulo 2^keyLength, also if a key is added to itself. */
    method AddAssign(rhs: OverlayKey)
      requires Valid() && rhs.Valid() && rhs.keyLength == keyLength
      modifies this`isUnspec, key
      ensures Valid() && !isUnspec
      ensures Number() == Mod(old(Number()) + old(rhs.Number()), Pow2(keyLength))
    {
      AddIsModular(key[..], rhs.key[..], keyLength);
      hide Mod, Pow2, Value, Limbs.Add, Trimmed;
      var _ := MpnAddN(key, rhs.key);
      Trim();
      isUnspec := false;
    }

    method SubAssign(rhs: OverlayKey)
      requires Valid() && rhs.Valid() && rhs.keyLength == keyLength
      modifies this`isUnspec, key
      ensures Valid() && !isUnspec
      ensures Number() == Mod(old(Number()) - old(rhs.Number()), Pow2(keyLength))
    {
      SubIsModular(key[..], rhs.key[..], keyLength);
      hide Mod, Pow2, Value, Limbs.Sub, Trimmed;
      var _ := MpnSubN(key, rhs.key);
      Trim();
      isUnspec := false;
    }

    method Plus(rhs: OverlayKey) returns (result: OverlayKey)
      requires Valid() && rhs.Valid() && rhs.keyLength == keyLength
      ensures fresh(result) && result.Valid() && result.keyLength == keyLength && !result.isUnspec
      ensures result.Number() == Mod(Number() + rhs.Number(), Pow2(keyLength))
    {
      result := new OverlayKey.Copy(this);
      result.AddAssign(rhs);
    }

    method Minus(rhs: OverlayKey) returns (result: OverlayKey)
      requires Valid() && rhs.Valid() && rhs.keyLength == keyLength
      ensures fresh(result) && result.Valid() && result.keyLength == keyLength && !result.isUnspec
      ensures result.Number() == Mod(Number() - rhs.Number(), Pow2(keyLength))
    {
      result := new OverlayKey.Copy(this);
      result.SubAssign(rhs);
    }

    /** The three-way comparison of the numbers; fails if a key is unspecified. */
    method CompareTo(compKey: OverlayKey) returns (ok: bool, r: int)
      requires Valid() && compKey.Valid() && compKey.keyLength == keyLength
      ensures ok <==> !isUnspec && !compKey.isUnspec
      ensures ok ==> r == Sign(Number() - compKey.Number())
    {
      if compKey.isUnspec || isUnspec {
        return false, 0;
      }
      r := MpnCmp(key, compKey.key);
      return true, r;
    }

    /** Bit by bit exclusive or, or, and: the three operators have the same loop. */
    method CombineWith(op: BitOp, rhs: OverlayKey) returns (result: OverlayKey)
      requires Valid() && rhs.Valid() && rhs.keyLength == keyLength && !rhs.isUnspec
      ensures fresh(result) && result.Valid() && result.keyLength == keyLength && result.isUnspec == isUnspec
      ensures result.Number() == Combine(op, Number(), rhs.Number())
    {
      result := new OverlayKey.Copy(this);
      CombineLimbsIs(op, key[..], rhs.key[..]);
      if !isUnspec {
        CombineIsBelow(op, Number(), rhs.Number(), keyLength);
      }
      hide Combine, CombineLimbs, Value, Pow2;
      CombineInPlace(op, result.key, rhs.key);
    }

    /** The complement; with two's complement on the ring, -1 - x. */
    method Complement() returns (result: OverlayKey)
      requires Valid()
      ensures fresh(result) && result.Valid() && result.keyLength == keyLength && result.isUnspec == isUnspec
      ensures result.Number() == Mod(-1 - Number(), Pow2(keyLength))
    {
      result := new OverlayKey.Copy(this);
      NotIsModular(key[..], keyLength);
      hide NotLimbs, Value, Pow2, Mod, Trimmed;
      NotInPlace(result.key);
      result.Trim();
    }

    /** Division by a power of two. GMP's shift of limbs is defined for counts from 1 to 31 only. */
    method ShiftRight(num: nat) returns (result: OverlayKey)
      requires Valid() && (num % LIMB_BITS != 0 || num / LIMB_BITS >= Words(keyLength))
      ensures fresh(result) && result.Valid() && result.keyLength == keyLength && !result.isUnspec
      ensures result.Number() == Mod(Div(Number(), Pow2(num)), Pow2(keyLength))
    {
      result := new OverlayKey.FromNumber(keyLength, 0);
      var i, count := num / LIMB_BITS, num % LIMB_BITS;
      if i >= key.Length {
        ShiftedOut(key[..], num);
        return;
      }
      ShiftedRight(key[..], i, count);
      ZeroKey(result.key[..]);
      hide Value, Pow2, Mod, Div, Right, Zeros;
      CopyDown(result.key, key, i);
      MpnRShift(result.key, count);
      result.Trim();
    }

    /** Multiplication by a power of two, modulo 2^keyLength. */
    method ShiftLeft(num: nat) returns (result: OverlayKey)
      requires Valid() && (num % LIMB_BITS != 0 || num / LIMB_BITS >= Words(keyLength))
      ensures fresh(result) && result.Valid() && result.keyLength == keyLength && !result.isUnspec
      ensures result.Number() == Mod(Number() * Pow2(num), Pow2(keyLength))
    {
      result := new OverlayKey.FromNumber(keyLength, 0);
      var i, count := num / LIMB_BITS, num % LIMB_BITS;
      if i >= key.Length {
        AllShiftedOut(Number(), keyLength, num);
        return;
      }
      ShiftedLeft(key[..], i, count, keyLength);
      ZeroKey(result.key[..]);
      hide Value, Pow2, Mod, Left, Zeros;
      CopyUp(result.key, key, i);
      MpnLShift(result.key, count);
      result.Trim();
    }

    /** Random bits below a position: random gives the limbs drawn. Nothing else of the key changes. */
    method RandomSuffix(pos: nat, random: nat -> Limb) returns (newKey: OverlayKey)
      requires Valid() && !isUnspec && pos < keyLength
      ensures fresh(newKey) && newKey.Valid() && newKey.keyLength == keyLength && !newKey.isUnspec
      ensures Div(newKey.Number(), Pow2(pos)) == Div(Number(), Pow2(pos))
      ensures Mod(newKey.Number(), Pow2(pos)) == Mod(Value(Drawn(key.Length, random)), Pow2(pos))
    {
      newKey := new OverlayKey.Copy(this);
      SuffixIs(key[..], Drawn(key.Length, random), pos, keyLength);
      hide Value, Pow2, Mod, Div, Mixed, Drawn;
      DrawBelow(newKey.key, pos / LIMB_BITS, pos % LIMB_BITS, random);
      SmallMod(newKey.Number(), Pow2(keyLength));
      newKey.Trim();
    }

    /** Random bits from a position on. */
    method RandomPrefix(pos: nat, random: nat -> Limb) returns (newKey: OverlayKey)
      requires Valid() && !isUnspec && pos < keyLength
      ensures fresh(newKey) && newKey.Valid() && newKey.keyLength == keyLength && !newKey.isUnspec
      ensures Mod(newKey.Number(), Pow2(pos)) == Mod(Number(), Pow2(pos))
      ensures Div(newKey.Number(), Pow2(pos)) ==
              Div(Mod(Value(Drawn(key.Length, random)), Pow2(keyLength)), Pow2(pos))
    {
      newKey := new OverlayKey.Copy(this);
      PrefixIs(key[..], Drawn(key.Length, random), pos, keyLength);
      hide Value, Pow2, Mod, Div, Mixed, Drawn;
      DrawAbove(newKey.key, pos / LIMB_BITS, pos % LIMB_BITS, random);
      newKey.Trim();
    }

    /** The n bits from p on. Fails for a range that reaches beyond the key or is too wide. */
    method GetBitRange(p: nat, n: nat) returns (ok: bool, r: nat)
      requires Valid() && n > 0
      ensures ok <==> p + n <= keyLength && n <= 32
      ensures ok ==> r == Mod(Div(Number(), Pow2(p)), Pow2(n))
    {
      if p + n > keyLength || n > 32 {
        return false, 0;
      }
      var i, f := p / LIMB_BITS, p % LIMB_BITS;
      BitRange(key[..], i, f, n);
      PowSplits(f);
      var bits := Div(key[i], Pow2(f));
      if f + n > 32 {
        bits := RightLimb(key[i], key[i + 1], Pow2(f), Pow2(32 - f));
      } else {
        OneLimbRange(key[i], Next(key[..], i), f, n);
      }
      return true, Mod(bits, Pow2(n));
    }

    /** The position of the most significant bit, or -1. */
    method Log2() returns (r: int)
      requires Valid()
      ensures if Number() == 0 then r == -1 else r >= 0 && Pow2(r) <= Number() < Pow2(r + 1)
    {
      var i := key.Length - 1;
      while i >= 0 && key[i] == 0
        invariant -1 <= i < key.Length
        invariant forall j :: i < j < key.Length ==> key[j] == 0
      {
        i := i - 1;
      }
      if i < 0 {
        ZeroLimbs(key[..]);
        return -1;
      }
      ghost var top: nat := i;
      var j: nat := key[i];
      i := i * LIMB_BITS;
      ghost var k: nat := 0;
      while j != 0
        invariant i == LIMB_BITS * top + k
        invariant j == Div(key[top], Pow2(k))
        invariant k > 0 ==> Div(key[top], Pow2(k - 1)) > 0
        decreases j
      {
        DivDiv(key[top], Pow2(k), 2);
        assert Pow2(k) * 2 == Pow2(k + 1);
        j := Div(j, 2);
        i := i + 1;
        k := k + 1;
      }
      MostSignificant(key[..], top, k);
      return i - 1;
    }

    /** The digits from the most significant on. Fails for another base, and for base 16 if the key is not made of
        whole digits: the range of the first one would reach beyond the key. */
    method ToString(base: nat) returns (ok: bool, s: string)
      requires Valid()
      ensures ok <==> base == 2 || (base == 16 && (isUnspec || keyLength % 4 == 0))
      ensures ok && isUnspec ==> s == "<unspec>"
      ensures ok && !isUnspec ==> s == HexString(Digits(Number(), DigitBits(base), keyLength / DigitBits(base)))
    {
      s := "";
      if base != 2 && base != 16 {
        return false, s;
      }
      if isUnspec {
        return true, "<unspec>";
      }
      if base == 16 {
        ok, s := ToHex();
      } else {
        s := ToBinary();
        ok := true;
      }
    }

    method ToHex() returns (ok: bool, s: string)
      requires Valid()
      ensures ok <==> keyLength % 4 == 0
      ensures ok ==> s == HexString(Digits(Number(), 4, keyLength / 4))
    {
      s := "";
      var top := (keyLength - 1) / 4;
      var i := top;
      ghost var m, d := keyLength / 4, Digits(Number(), 4, keyLength / 4);
      hide Value, Pow2, Mod, Div, Digits, HexString;
      EmptyString(d);
      while i >= 0
        invariant -1 <= i <= top
        invariant i < top ==> keyLength % 4 == 0
        invariant keyLength % 4 == 0 ==> top == m - 1 && s == HexString(d[..m - 1 - i])
      {
        var fits, digit := GetBitRange(4 * i, 4);
        if !fits {
          return false, s;
        }
        DigitAt(Number(), 4, m, m - 1 - i);
        HexAppends(d, m - 1 - i);
        s := s + [HexChar(digit)];
        i := i - 1;
      }
      assert d[..m] == d;
      return true, s;
    }

    method ToBinary() returns (s: string)
      requires Valid()
      ensures s == HexString(Digits(Number(), 1, keyLength))
    {
      s := "";
      var i := keyLength - 1;
      ghost var m, d := keyLength, Digits(Number(), 1, keyLength);
      hide Value, Pow2, Mod, Div, Digits, HexString;
      EmptyString(d);
      while i >= 0
        invariant -1 <= i < keyLength
        invariant s == HexString(d[..m - 1 - i])
      {
        var _, digit := GetBitRange(i, 1);
        DigitAt(Number(), 1, m, m - 1 - i);
        HexAppends(d, m - 1 - i);
        s := s + [HexChar(digit)];
        i := i - 1;
      }
      assert d[..m] == d;
    }

    // ----- intervals of the ring

    method IsBetween(keyA: OverlayKey, keyB: OverlayKey) returns (r: bool)
      requires Valid() && keyA.Valid() && keyB.Valid() && keyA.keyLength == keyB.keyLength == keyLength
      ensures r <==> AllSpecified(keyA, keyB) && InOpen(Number(), keyA.Number(), keyB.Number(), keyLength)
    {
      if isUnspec || keyA.isUnspec || keyB.isUnspec {
        return false;
      }
      CwCases(Number(), keyA.Number(), keyB.Number(), keyLength);
      hide Value, Pow2, Mod, Cw;
      var _, a := CompareTo(keyA);
      var _, b := CompareTo(keyB);
      var _, ab := keyA.CompareTo(keyB);
      if a == 0 {
        return false;
      } else if ab < 0 {
        return a > 0 && b < 0;
      } else {
        return a > 0 || b < 0;
      }
    }

    method IsBetweenR(keyA: OverlayKey, keyB: OverlayKey) returns (r: bool)
      requires Valid() && keyA.Valid() && keyB.Valid() && keyA.keyLength == keyB.keyLength == keyLength
      ensures r <==> AllSpecified(keyA, keyB) && InRight(Number(), keyA.Number(), keyB.Number(), keyLength)
    {
      if isUnspec || keyA.isUnspec || keyB.isUnspec {
        return false;
      }
      CwCases(Number(), keyA.Number(), keyB.Number(), keyLength);
      hide Value, Pow2, Mod, Cw;
      var _, a := CompareTo(keyA);
      var _, b := CompareTo(keyB);
      var _, ab := keyA.CompareTo(keyB);
      if ab == 0 && a == 0 {
        return true;
      } else if ab <= 0 {
        return a > 0 && b <= 0;
      } else {
        return a > 0 || b <= 0;
      }
    }

    method IsBetweenL(keyA: OverlayKey, keyB: OverlayKey) returns (r: bool)
      requires Valid() && keyA.Valid() && keyB.Valid() && keyA.keyLength == keyB.keyLength == keyLength
      ensures r <==> AllSpecified(keyA, keyB) && InLeft(Number(), keyA.Number(), keyB.Number(), keyLength)
    {
      if isUnspec || keyA.isUnspec || keyB.isUnspec {
        return false;
      }
      CwCases(Number(), keyA.Number(), keyB.Number(), keyLength);
      hide Value, Pow2, Mod, Cw;
      var _, a := CompareTo(keyA);
      var _, b := CompareTo(keyB);
      var _, ab := keyA.CompareTo(keyB);
      if ab == 0 && a == 0 {
        return true;
      } else if ab <= 0 {
        return a >= 0 && b < 0;
      } else {
        return a >= 0 || b < 0;
      }
    }

    method IsBetweenLR(keyA: OverlayKey, keyB: OverlayKey) returns (r: bool)
      requires Valid() && keyA.Valid() && keyB.Valid() && keyA.keyLength == keyB.keyLength == keyLength
      ensures r <==> AllSpecified(keyA, keyB) && InBoth(Number(), keyA.Number(), keyB.Number(), keyLength)
    {
      if isUnspec || keyA.isUnspec || keyB.isUnspec {
        return false;
      }
      CwCases(Number(), keyA.Number(), keyB.Number(), keyLength);
      hide Value, Pow2, Mod, Cw;
      var _, a := CompareTo(keyA);
      var _, b := CompareTo(keyB);
      var _, ab := keyA.CompareTo(keyB);
      if ab == 0 && a == 0 {
        return true;
      } else if ab <= 0 {
        return a >= 0 && b <= 0;
      } else {
        return a >= 0 || b <= 0;
      }
    }

    predicate AllSpecified(keyA: OverlayKey, keyB: OverlayKey)
      reads this, keyA, keyB
    {
      !isUnspec && !keyA.isUnspec && !keyB.isUnspec
    }
  }

  /** The limb that the search stops at has the most significant bit. */
  lemma MostSignificant(s: seq<Limb>, top: nat, k: nat)
    requires top < |s| && forall j :: top < j < |s| ==> s[j] == 0
    requires s[top] > 0 && Div(s[top], Pow2(k)) == 0 && (k > 0 ==> Div(s[top], Pow2(k - 1)) > 0)
    ensures k > 0 && Pow2(LIMB_BITS * top + k - 1) <= Value(s) < Pow2(LIMB_BITS * top + k)
  {
    ZeroLimbs(s[top + 1..]);
    TopLimbs(s, top);
    SomeBit(s[top], k);
    BasePowIs(top);
    hide *;
    PowAdd(LIMB_BITS * top, k);
    PowAdd(LIMB_BITS * top, k - 1);
    DivMod(Value(s), BasePow(top));
    Magnitude(Value(s), BasePow(top), s[top], Mod(Value(s), BasePow(top)), Pow2(k - 1), Pow2(k));
  }

  lemma SomeBit(x: nat, k: nat)
    requires x > 0 && Div(x, Pow2(k)) == 0 && (k > 0 ==> Div(x, Pow2(k - 1)) > 0)
    ensures k > 0 && Pow2(k - 1) <= x < Pow2(k)
  {
  }

  lemma Magnitude(v: int, b: int, x: int, r: int, low: int, high: int)
    requires v == b * x + r && 0 <= r < b && low <= x < high
    ensures b * low <= v < b * high
  {
    assert b * low <= b * x;
    assert b * (x + 1) <= b * high;
  }

  /** A key is determined by the position of its most significant bit if it has no other. */
  lemma LogOfPower(v: nat, r: nat, e: nat)
    requires v == Pow2(e) && Pow2(r) <= v < Pow2(r + 1)
    ensures r == e
  {
    if r < e {
      PowMonotonic(r + 1, e);
    } else if e < r {
      PowMonotonic(e + 1, r);
    }
  }

  // ----- strings

  function DigitBits(base: nat): nat {
    if base == 2 then 1 else 4
  }

  function HexChar(d: nat): (c: char) {
    if d < 16 then "0123456789abcdef"[d] else '?'
  }

  /** The value of a digit; capital letters are digits as well. */
  function CharValue(c: char): (d: int)
    ensures -1 <= d < 16
  {
    if '0' <= c <= '9' then c as int - '0' as int
    else if 'a' <= c <= 'f' then c as int - 'a' as int + 10
    else if 'A' <= c <= 'F' then c as int - 'A' as int + 10
    else -1
  }

  lemma CharOfDigit(d: nat)
    requires d < 16
    ensures CharValue(HexChar(d)) == d
  {
  }

  function HexString(d: seq<nat>): (s: string)
    ensures |s| == |d|
  {
    seq(|d|, i requires 0 <= i < |d| => HexChar(d[i]))
  }

  lemma HexAppends(d: seq<nat>, i: nat)
    requires i < |d|
    ensures HexString(d[..i + 1]) == HexString(d[..i]) + [HexChar(d[i])]
  {
  }

  lemma EmptyString(d: seq<nat>)
    ensures HexString(d[..0]) == ""
  {
  }

  // ----- mpn_set_str

  /** The n lowest limbs of a number. */
  function LimbsOf(v: nat, n: nat): (r: seq<Limb>)
    ensures |r| == n
  {
    if n == 0 then [] else [v % BASE] + LimbsOf(v / BASE, n - 1)
  }

  lemma {:induction false} LimbsOfValue(v: nat, n: nat)
    requires v < BasePow(n)
    ensures Value(LimbsOf(v, n)) == v
  {
    if n > 0 {
      LimbsOfValue(v / BASE, n - 1);
      assert LimbsOf(v, n)[1..] == LimbsOf(v / BASE, n - 1);
    }
  }

  /** The number that the digits stand for; GMP demands that it fits into the limbs. */
  method MpnSetStr(a: array<Limb>, digits: seq<nat>, base: nat)
    requires Horner(digits, base) < BasePow(a.Length)
    modifies a
    ensures Value(a[..]) == Horner(digits, base)
  {
    var v := 0;
    for i := 0 to |digits|
      invariant v == Horner(digits[..i], base)
    {
      assert digits[..i + 1][..i] == digits[..i];
      v := v * base + digits[i];
    }
    assert digits[..|digits|] == digits;
    LimbsOfValue(v, a.Length);
    StoreLimbs(a, v);
  }

  method StoreLimbs(a: array<Limb>, number: nat)
    modifies a
    ensures a[..] == LimbsOf(number, a.Length)
  {
    var v: nat := number;
    for i := 0 to a.Length
      invariant a[..i] + LimbsOf(v, a.Length - i) == LimbsOf(number, a.Length)
    {
      ghost var done, rest := a[..i], LimbsOf(v / BASE, a.Length - i - 1);
      assert done + ([v % BASE] + rest) == done + [v % BASE] + rest;
      a[i] := v % BASE;
      v := v / BASE;
      assert a[..i + 1] == done + [a[i]];
    }
    assert a[..] == a[..a.Length];
  }

  /** The digits of a string, if they all are digits. */
  function StringDigits(s: string): (d: seq<int>)
    ensures |d| == |s|
  {
    seq(|s|, i requires 0 <= i < |s| => CharValue(s[i]))
  }

  ghost predicate AllDigits(s: string) {
    forall i :: 0 <= i < |s| ==> CharValue(s[i]) >= 0
  }

  /** A key from a string. Fails for a base or a character that is none; the digits are not compared with the base. */
  method FromString(keyLength: nat, str: string, base: nat) returns (ok: bool, k: OverlayKey)
    requires keyLength > 0 && |str| > 0
    requires 2 <= base <= 16 && AllDigits(str) ==> Horner(StringDigits(str), base) < BasePow(Words(keyLength))
    ensures ok <==> 2 <= base <= 16 && AllDigits(str)
    ensures fresh(k) && k.Valid() && k.keyLength == keyLength
    ensures ok ==> !k.isUnspec && k.Number() == Mod(Horner(StringDigits(str), base), Pow2(keyLength))
  {
    k := new OverlayKey.FromNumber(keyLength, 0);
    if base < 2 || base > 16 {
      return false, k;
    }
    var digits: seq<nat> := [];
    for i := 0 to |str|
      invariant |digits| == i && forall j :: 0 <= j < i ==> CharValue(str[j]) == digits[j]
    {
      var d := CharValue(str[i]);
      if d < 0 {
        return false, k;
      }
      digits := digits + [d];
    }
    assert digits == StringDigits(str);
    hide Value, Pow2, Mod, Horner, BasePow;
    MpnSetStr(k.key, digits, base);
    k.Trim();
    return true, k;
  }

  /** Reading back what a key is written as gives the key, in base 2 always and in base 16 whenever it can be
      written. */
  method ReadBack(k: OverlayKey, base: nat) returns (ok: bool, r: OverlayKey)
    requires k.Valid() && !k.isUnspec
    ensures fresh(r) && r.Valid() && r.keyLength == k.keyLength
    ensures ok <==> base == 2 || (base == 16 && k.keyLength % 4 == 0)
    ensures ok ==> !r.isUnspec && r.Number() == k.Number()
  {
    var s;
    ok, s := k.ToString(base);
    if !ok {
      r := new OverlayKey(k.keyLength);
      return;
    }
    WrittenDigits(k.Number(), base, k.keyLength, s);
    hide Value, Pow2, Mod, Horner, BasePow, HexString, Digits;
    ok, r := FromString(k.keyLength, s, base);
  }

  lemma WrittenDigits(v: nat, base: nat, bits: nat, s: string)
    requires bits > 0 && v < Pow2(bits) && (base == 2 || (base == 16 && bits % 4 == 0))
    requires s == HexString(Digits(v, DigitBits(base), bits / DigitBits(base)))
    ensures |s| > 0 && AllDigits(s) && Horner(StringDigits(s), base) == v == Mod(v, Pow2(bits))
    ensures v < BasePow(Words(bits))
  {
    var w, m := DigitBits(base), bits / DigitBits(base);
    var d := Digits(v, w, m);
    DigitBase(base);
    forall i | 0 <= i < m
      ensures d[i] < 16 && StringDigits(s)[i] == d[i]
    {
      DigitAt(v, w, m, i);
      CharOfDigit(d[i]);
    }
    assert StringDigits(s) == d;
    HornerOfDigits(v, w, m);
    assert Exp(w, m) == bits;
    SmallMod(v, Pow2(bits));
    BasePowIs(Words(bits));
    PowMonotonic(bits, LIMB_BITS * Words(bits));
  }

  lemma DigitBase(base: nat)
    requires base == 2 || base == 16
    ensures Pow2(DigitBits(base)) == base
  {
    assert Pow2(1) == 2 && Pow2(2) == 4;
    PowAdd(2, 2);
  }

  /** A key with one bit. Fails for a bit beyond the key. */
  /** One bit of one limb. */
  lemma OneBit(keyLength: nat, exponent: nat)
    requires exponent < keyLength
    ensures Pow2(exponent % LIMB_BITS) < BASE && exponent / LIMB_BITS < Words(keyLength)
    ensures Pow2(exponent) < Pow2(keyLength)
    ensures Value(Zeros(Words(keyLength))[exponent / LIMB_BITS := Pow2(exponent % LIMB_BITS)]) == Pow2(exponent)
  {
    var i, bit := exponent / LIMB_BITS, exponent % LIMB_BITS;
    PositionIs(exponent);
    hide Value, Pow2, BasePow;
    PowAdd(LIMB_BITS * i, bit);
    BasePowIs(i);
    BitInLimb(bit);
    OneLimbAt(Words(keyLength), i, Pow2(bit));
    PowBelow(exponent, keyLength);
  }

  method PowerOfTwo(keyLength: nat, exponent: nat) returns (ok: bool, result: OverlayKey)
    requires keyLength > 0
    ensures ok <==> exponent < keyLength
    ensures fresh(result) && result.Valid() && result.keyLength == keyLength
    ensures ok ==> !result.isUnspec && result.Number() == Pow2(exponent)
  {
    result := new OverlayKey.FromNumber(keyLength, 0);
    if exponent >= keyLength {
      return false, result;
    }
    var i, bit := exponent / LIMB_BITS, exponent % LIMB_BITS;
    hide Value, Pow2, Mod, BasePow, Zeros;
    ZeroKey(result.key[..]);
    OneBit(keyLength, exponent);
    result.key[i] := Pow2(bit);
    assert result.key[..] == Zeros(result.key.Length)[i := Pow2(bit)];
    return true, result;
  }

  lemma BitInLimb(bit: nat)
    requires bit < 32
    ensures Pow2(bit) < BASE
  {
    Pow32();
    PowMonotonic(bit + 1, 32);
  }

  lemma PowBelow(a: nat, b: nat)
    requires a < b
    ensures Pow2(a) < Pow2(b)
  {
  }

  lemma OneLimbAt(n: nat, i: nat, x: Limb)
    requires i < n
    ensures Value(Zeros(n)[i := x]) == BasePow(i) * x
  {
    var s := Zeros(n)[i := x];
    assert s == Zeros(i) + ([x] + Zeros(n - i - 1));
    ValueAppend(Zeros(i), [x] + Zeros(n - i - 1));
    ZeroValue(i);
    OneLimb([x] + Zeros(n - i - 1), x);
  }

  /** log_2 undoes pow2. */
  method LogOfPowerOfTwo(keyLength: nat, exponent: nat) returns (r: int)
    requires exponent < keyLength
    ensures r == exponent
  {
    var _, k := PowerOfTwo(keyLength, exponent);
    r := k.Log2();
    LogOfPower(k.Number(), r, exponent);
  }

  // ----- intervals

  /** The distance from a clockwise to x. */
  function Cw(a: int, x: int, bits: nat): (d: int) {
    Mod(x - a, Pow2(bits))
  }

  predicate InOpen(x: int, a: int, b: int, bits: nat) {
    if a == b then x != a else 0 < Cw(a, x, bits) < Cw(a, b, bits)
  }

  predicate InRight(x: int, a: int, b: int, bits: nat) {
    if a == b then x == a else 0 < Cw(a, x, bits) <= Cw(a, b, bits)
  }

  predicate InLeft(x: int, a: int, b: int, bits: nat) {
    if a == b then x == a else Cw(a, x, bits) < Cw(a, b, bits)
  }

  predicate InBoth(x: int, a: int, b: int, bits: nat) {
    Cw(a, x, bits) <= Cw(a, b, bits)
  }

  lemma CwIs(a: int, x: int, bits: nat)
    requires 0 <= a < Pow2(bits) && 0 <= x < Pow2(bits)
    ensures Cw(a, x, bits) == if x >= a then x - a else x - a + Pow2(bits)
  {
    if x >= a {
      Quotient(x - a, Pow2(bits), 0, x - a);
    } else {
      Quotient(x - a, Pow2(bits), -1, x - a + Pow2(bits));
    }
  }

  lemma CwCases(x: int, a: int, b: int, bits: nat)
    requires 0 <= x < Pow2(bits) && 0 <= a < Pow2(bits) && 0 <= b < Pow2(bits)
    ensures Cw(a, x, bits) == if x >= a then x - a else x - a + Pow2(bits)
    ensures Cw(a, b, bits) == if b >= a then b - a else b - a + Pow2(bits)
  {
    CwIs(a, x, bits);
    CwIs(a, b, bits);
  }

  /** Turning the ring turns the distances with it. */
  lemma CwTurned(a: int, x: int, c: int, bits: nat)
    ensures Cw(Mod(a + c, Pow2(bits)), Mod(x + c, Pow2(bits)), bits) == Cw(a, x, bits)
  {
    var m := Pow2(bits);
    DivMod(a + c, m);
    DivMod(x + c, m);
    hide Div, Mod, Pow2;
    var i, j := Div(a + c, m), Div(x + c, m);
    Limbs.Distributes(m, 1, i, -j);
    Congruent(Mod(x + c, m) - Mod(a + c, m), x - a, m, i - j);
  }

  lemma EqualIfTurned(a: int, b: int, c: int, bits: nat)
    requires 0 <= a < Pow2(bits) && 0 <= b < Pow2(bits)
    ensures Mod(a + c, Pow2(bits)) == Mod(b + c, Pow2(bits)) <==> a == b
  {
    CwTurned(a, b, c, bits);
    CwIs(a, b, bits);
    CwIs(Mod(a + c, Pow2(bits)), Mod(b + c, Pow2(bits)), bits);
  }

  /** Adding a constant to all keys changes no interval. */
  lemma IntervalsTurn(x: int, a: int, b: int, c: int, bits: nat)
    requires 0 <= x < Pow2(bits) && 0 <= a < Pow2(bits) && 0 <= b < Pow2(bits)
    ensures var m := Pow2(bits);
            var (x', a', b') := (Mod(x + c, m), Mod(a + c, m), Mod(b + c, m));
            && (InOpen(x', a', b', bits) <==> InOpen(x, a, b, bits))
            && (InRight(x', a', b', bits) <==> InRight(x, a, b, bits))
            && (InLeft(x', a', b', bits) <==> InLeft(x, a, b, bits))
            && (InBoth(x', a', b', bits) <==> InBoth(x, a, b, bits))
  {
    CwTurned(a, x, c, bits);
    CwTurned(a, b, c, bits);
    EqualIfTurned(a, b, c, bits);
    EqualIfTurned(x, a, c, bits);
    hide Cw, Mod, Pow2;
  }

  /** Two different keys split the ring: every key is in one of (a, b] and (b, a], and in one of [a, b) and [b, a). */
  lemma RingSplits(x: int, a: int, b: int, bits: nat)
    requires 0 <= x < Pow2(bits) && 0 <= a < Pow2(bits) && 0 <= b < Pow2(bits) && a != b
    ensures InRight(x, a, b, bits) <==> !InRight(x, b, a, bits)
    ensures InLeft(x, a, b, bits) <==> !InLeft(x, b, a, bits)
    ensures InBoth(x, a, b, bits) <==> InOpen(x, a, b, bits) || x == a || x == b
  {
    CwCases(x, a, b, bits);
    CwCases(x, b, a, bits);
    hide Cw, Mod, Pow2;
  }

  lemma {:induction false} ZeroKey(s: seq<Limb>)
    requires Value(s) == 0
    ensures s == Zeros(|s|)
  {
    ZeroValue(|s|);
    ValueInjective(s, Zeros(|s|));
  }

  lemma AllShiftedOut(v: nat, bits: nat, num: nat)
    requires bits > 0 && num / LIMB_BITS >= Words(bits)
    ensures Mod(v * Pow2(num), Pow2(bits)) == 0 == Mod(0, Pow2(bits))
  {
    var m, r := Pow2(bits), Pow2(num - bits);
    PowAdd(bits, num - bits);
    assert Mod(0, m) == 0 by {
      Quotient(0, m, 0, 0);
    }
    hide Pow2, Mod, Words;
    Rearranged(v, m, r);
    Associates(m, r, v);
    Congruent(v * (m * r), 0, m, r * v);
  }

  /** The limbs move down by i places. */
  method CopyDown(a: array<Limb>, b: array<Limb>, i: nat)
    requires a.Length == b.Length && a != b && i < a.Length && a[..] == Zeros(a.Length)
    modifies a
    ensures a[..] == b[i..] + Zeros(i)
  {
    for j := 0 to a.Length - i
      invariant a[..j] == b[i..i + j]
      invariant forall k :: j <= k < a.Length ==> a[k] == 0
    {
      a[j] := b[j + i];
    }
    assert b[i..i + (a.Length - i)] == b[i..];
    assert a[..] == a[..a.Length - i] + a[a.Length - i..];
  }

  /** The limbs move up by i places. */
  method CopyUp(a: array<Limb>, b: array<Limb>, i: nat)
    requires a.Length == b.Length && a != b && i < a.Length && a[..] == Zeros(a.Length)
    modifies a
    ensures a[..] == Zeros(i) + b[..b.Length - i]
  {
    for j := 0 to a.Length - i
      invariant a[i..i + j] == b[..j]
      invariant forall k :: 0 <= k < i || i + j <= k < a.Length ==> a[k] == 0
    {
      a[j + i] := b[j];
    }
    assert a[..] == a[..i] + a[i..i + (a.Length - i)];
  }

  lemma {:induction false} OneLimb(s: seq<Limb>, num: Limb)
    requires s != [] && s[0] == num && forall i :: 1 <= i < |s| ==> s[i] == 0
    ensures Value(s) == num
  {
    ZeroLimbs(s[1..]);
  }

  lemma {:induction false} ZeroLimbs(s: seq<Limb>)
    requires forall i :: 0 <= i < |s| ==> s[i] == 0
    ensures Value(s) == 0
  {
    if s != [] {
      ZeroLimbs(s[1..]);
    }
  }
}
