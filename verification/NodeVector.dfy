/** The bounded, ranked vector of src/common/NodeVector.h. It has three zones: the first `sizeProx`
    entries are ranked by proximity, the next `sizeComb` by proximity and key, the rest by key. Adding
    an element to a full zone displaces that zone's last entry, which is added again and lands further
    back. The theorem: the vector always holds the zone-wise best of everything offered so far.

    Positions stand for iterators, and comparing an iterator with the end after an insertion reads as
    "nothing was inserted". A comparator takes whole elements; it stands for the source's comparator
    applied to the extracted key, proximity, or pair of both. */
module NodeVector {
  import opened Wrappers

  datatype Config<!T, !Id> = Config(
    maxSize: nat,
    comparator: Option<(T, T) -> int>,
    proxComparator: Option<(T, T) -> int>,
    proxKeyComparator: Option<(T, T) -> int>,
    sizeProx: nat,
    sizeComb: nat,
    id: T -> Id)

  /** The zone that position i belongs to. */
  function Zone<T, Id>(c: Config<T, Id>, i: nat): nat {
    if i < c.sizeProx then 0 else if i < c.sizeProx + c.sizeComb then 1 else 2
  }

  function ZoneComparator<T, Id>(c: Config<T, Id>, zone: nat): Option<(T, T) -> int> {
    if zone == 0 then c.proxComparator else if zone == 1 then c.proxKeyComparator else c.comparator
  }

  ghost predicate TotalPreorder<T(!new)>(cmp: (T, T) -> int) {
    && (forall x, y :: cmp(x, y) < 0 <==> cmp(y, x) > 0)
    && (forall x, y, z :: cmp(x, y) <= 0 && cmp(y, z) <= 0 ==> cmp(x, z) <= 0)
  }

  /** What the source's assertions and uses demand of the parameters of a vector. */
  ghost predicate WellFormed<T(!new), Id>(c: Config<T, Id>) {
    && (c.maxSize == 0 ==> c.sizeProx == 0 && c.sizeComb == 0)
    && (c.maxSize > 0 ==> c.sizeProx + c.sizeComb <= c.maxSize)
    && (c.sizeProx > 0 ==> c.proxComparator.Some?)
    && (c.sizeComb > 0 ==> c.proxKeyComparator.Some?)
    && (c.maxSize == 0 || c.sizeProx + c.sizeComb < c.maxSize ==> c.comparator.Some?)
    && (forall z :: 0 <= z < 3 && ZoneComparator(c, z).Some? ==> TotalPreorder(ZoneComparator(c, z).value))
  }

  /** Does the ranking of position i put x no later than y? */
  predicate Le<T, Id>(c: Config<T, Id>, i: nat, x: T, y: T) {
    var cmp := ZoneComparator(c, Zone(c, i));
    cmp.Some? && cmp.value(x, y) <= 0
  }

  predicate Less<T, Id>(c: Config<T, Id>, i: nat, x: T, y: T) {
    var cmp := ZoneComparator(c, Zone(c, i));
    cmp.Some? && cmp.value(x, y) < 0
  }

  /** Position i is one that the vector can use. */
  predicate Usable<T, Id>(c: Config<T, Id>, i: nat) {
    c.maxSize == 0 || i < c.maxSize
  }

  lemma LeTotal<T(!new), Id>(c: Config<T, Id>, i: nat, x: T, y: T)
    requires WellFormed(c) && Usable(c, i)
    ensures Less(c, i, x, y) <==> !Le(c, i, y, x)
    ensures Less(c, i, x, y) ==> Le(c, i, x, y)
    ensures Le(c, i, x, x)
  {
  }

  lemma LeTransitive<T(!new), Id>(c: Config<T, Id>, i: nat, x: T, y: T, z: T)
    requires WellFormed(c) && Usable(c, i)
    requires Le(c, i, x, y) && Le(c, i, y, z)
    ensures Le(c, i, x, z)
  {
  }

  // ----- adding an element

  predicate NoLater(cmp: Option<int>) {
    cmp.Some? && cmp.value <= 0
  }

  function Apply<T>(cmp: Option<(T, T) -> int>, x: T, y: T): Option<int> {
    if cmp.Some? then Some(cmp.value(x, y)) else None
  }

  predicate IsAddable<T, Id>(c: Config<T, Id>, v: seq<T>, e: T) {
    c.maxSize == 0 || |v| != c.maxSize ||
    (var back := v[|v| - 1];
     NoLater(Apply(c.comparator, e, back))
     || NoLater(Apply(c.proxComparator, e, back))
     || NoLater(Apply(c.proxKeyComparator, e, back)))
  }

  /** Where the scan stops: at an entry with the same identity, or one that e goes before. */
  predicate Stops<T, Id(==)>(c: Config<T, Id>, v: seq<T>, e: T, i: nat)
    requires i < |v|
  {
    c.id(e) == c.id(v[i]) || Less(c, i, e, v[i])
  }

  function FirstHit<T, Id(==)>(c: Config<T, Id>, v: seq<T>, e: T, from: nat): (i: nat)
    requires from <= |v|
    ensures from <= i <= |v|
    ensures i < |v| ==> Stops(c, v, e, i)
    ensures forall k :: from <= k < i ==> !Stops(c, v, e, k)
    decreases |v| - from
  {
    if from == |v| || Stops(c, v, e, from) then from else FirstHit(c, v, e, from + 1)
  }

  function InsertAt<T>(v: seq<T>, i: nat, e: T): seq<T>
    requires i <= |v|
  {
    v[..i] + [e] + v[i..]
  }

  function EraseAt<T>(v: seq<T>, i: nat): seq<T>
    requires i < |v|
  {
    v[..i] + v[i + 1..]
  }

  function Truncate<T, Id>(c: Config<T, Id>, v: seq<T>): seq<T> {
    if c.maxSize != 0 && |v| > c.maxSize then v[..c.maxSize] else v
  }

  /** The first position behind the zone of position i, if an insertion at i pushes an entry over it
      that has to be added again. */
  function Displaced<T, Id>(c: Config<T, Id>, v: seq<T>, i: nat): (at: Option<nat>)
    ensures at.Some? ==> i < at.value < |v|
  {
    if i < c.sizeProx then
      if c.sizeProx < |v| && c.sizeProx < c.maxSize then Some(c.sizeProx) else None
    else if i < c.sizeProx + c.sizeComb then
      if c.sizeProx + c.sizeComb < |v| && i < c.maxSize then Some(c.sizeProx + c.sizeComb) else None
    else None
  }

  /** v and e rank equally wherever they have the same identity. */
  ghost predicate SameRank<T, Id>(c: Config<T, Id>, x: T, y: T) {
    c.id(x) == c.id(y) ==> forall i: nat :: Usable(c, i) ==> Le(c, i, x, y) && Le(c, i, y, x)
  }

  /** Every entry precedes all later ones in the ranking of its own position; no identity repeats. */
  ghost predicate Zoned<T(!new), Id>(c: Config<T, Id>, v: seq<T>) {
    && (c.maxSize != 0 ==> |v| <= c.maxSize)
    && (forall i: nat, j: nat :: i < j < |v| ==> Le(c, i, v[i], v[j]))
    && (forall i: nat, j: nat :: i < j < |v| ==> c.id(v[i]) != c.id(v[j]))
  }

  ghost predicate Offerable<T(!new), Id>(c: Config<T, Id>, v: seq<T>, e: T) {
    WellFormed(c) && Zoned(c, v) && forall x :: x in v ==> SameRank(c, e, x)
  }

  /** The vector after an add, and the position returned. */
  datatype AddResult<+T> = AddResult(elems: seq<T>, pos: int)

  /** add */
  function AddTo<T(!new), Id(==)>(c: Config<T, Id>, v: seq<T>, e: T): AddResult<T>
    requires Offerable(c, v, e)
    decreases |v| + 1 - FirstHit(c, v, e, 0)
  {
    if !IsAddable(c, v, e) then AddResult(v, -1)
    else
      var i := FirstHit(c, v, e, 0);
      if i == |v| then AddResult(Truncate(c, v + [e]), i)
      else if c.id(e) == c.id(v[i]) then AddResult(v, -1)
      else
        var w := InsertAt(v, i, e);
        var at := Displaced(c, w, i);
        if at.None? then AddResult(Truncate(c, w), i)
        else
          var w' := EraseAt(w, at.value);
          DisplacedIsOfferable(c, v, e, i, at.value);
          AddResult(Truncate(c, AddTo(c, w', w[at.value]).elems), i)
  }

  lemma InsertBefore<T(!new), Id>(c: Config<T, Id>, v: seq<T>, e: T, i: nat)
    requires Offerable(c, v, e)
    requires i < |v| && i == FirstHit(c, v, e, 0) && c.id(e) != c.id(v[i])
    ensures forall k: nat :: k < i ==> Le(c, k, v[k], e)
    ensures forall k: nat :: i <= k < |v| ==> Less(c, i, e, v[k])
    ensures forall k: nat :: k < |v| ==> c.id(e) != c.id(v[k])
  {
    forall k: nat | k < i
      ensures Le(c, k, v[k], e) && c.id(e) != c.id(v[k])
    {
      assert !Stops(c, v, e, k);
      LeTotal(c, k, e, v[k]);
    }
    forall k: nat | i <= k < |v|
      ensures Less(c, i, e, v[k]) && c.id(e) != c.id(v[k])
    {
      LeTotal(c, i, v[k], v[k]);
      LeTotal(c, i, e, v[k]);
      LeTotal(c, i, e, v[i]);
      LeTotal(c, i, v[k], e);
      if Le(c, i, v[k], e) {
        LeTransitive(c, i, v[i], v[k], e);
        assert false;
      }
      assert SameRank(c, e, v[k]);
    }
  }

  /** v with e inserted at i and the entry now at `at` taken out again. */
  lemma ExchangeElements<T>(v: seq<T>, e: T, i: nat, at: nat)
    requires i < at <= |v|
    ensures var w := InsertAt(v, i, e);
            var w' := EraseAt(w, at);
            && w[at] == v[at - 1] && |w'| == |v|
            && (forall k :: 0 <= k < |v| ==>
                  w'[k] == if k < i then v[k] else if k == i then e else if k < at then v[k - 1] else v[k])
  {
  }

  /** A single zone can take e at i and give up its last entry, at - 1. */
  ghost predicate ExchangeInZone<T(!new), Id>(c: Config<T, Id>, v: seq<T>, e: T, i: nat, at: nat) {
    && i < at <= |v|
    && (forall k: nat :: i <= k < at ==> Zone(c, k) == Zone(c, i))
    && (forall k: nat :: k < i ==> Le(c, k, v[k], e))
    && (forall k: nat :: i <= k < |v| ==> Less(c, i, e, v[k]))
    && (forall k: nat :: k < |v| ==> c.id(e) != c.id(v[k]))
  }

  lemma ExchangeZoned<T(!new), Id>(c: Config<T, Id>, v: seq<T>, e: T, i: nat, at: nat)
    requires WellFormed(c) && Zoned(c, v) && ExchangeInZone(c, v, e, i, at)
    ensures Zoned(c, EraseAt(InsertAt(v, i, e), at))
  {
    ExchangeElements(v, e, i, at);
    var w' := EraseAt(InsertAt(v, i, e), at);
    forall k: nat, l: nat | k < l < |w'|
      ensures Le(c, k, w'[k], w'[l])
    {
      if k == i {
        LeTotal(c, i, e, w'[l]);
      } else if k > i && k < at {
        assert Zone(c, k - 1) == Zone(c, k);
      }
    }
    ExchangeDistinct(c, v, e, i, at);
  }

  lemma ExchangeDistinct<T(!new), Id>(c: Config<T, Id>, v: seq<T>, e: T, i: nat, at: nat)
    requires Zoned(c, v) && i < at <= |v|
    requires forall k: nat :: k < |v| ==> c.id(e) != c.id(v[k])
    ensures var w' := EraseAt(InsertAt(v, i, e), at);
            forall k: nat, l: nat :: k < l < |w'| ==> c.id(w'[k]) != c.id(w'[l])
  {
  }

  lemma DisplacedRanksBehind<T(!new), Id>(c: Config<T, Id>, v: seq<T>, e: T, i: nat, at: nat)
    requires WellFormed(c) && Zoned(c, v) && ExchangeInZone(c, v, e, i, at)
    ensures var w' := EraseAt(InsertAt(v, i, e), at);
            && |w'| == |v| && v[at - 1] !in w'
            && (forall x :: x in w' ==> c.id(x) != c.id(v[at - 1]))
            && at <= FirstHit(c, w', v[at - 1], 0)
  {
    ExchangeElements(v, e, i, at);
    var w' := EraseAt(InsertAt(v, i, e), at);
    var temp := v[at - 1];
    forall k: nat | k < at
      ensures !Stops(c, w', temp, k)
    {
      LeTotal(c, k, temp, w'[k]);
      LeTotal(c, k, e, temp);
      if i < k {
        assert w'[k] == v[k - 1] && Zone(c, k - 1) == Zone(c, k);
      }
    }
  }

  /** An insertion that pushes an entry over its zone's end leaves the rest zoned, and the displaced
      entry ranks behind everything in front of that end. */
  lemma DisplacedIsOfferable<T(!new), Id>(c: Config<T, Id>, v: seq<T>, e: T, i: nat, at: nat)
    requires Offerable(c, v, e)
    requires i < |v| && i == FirstHit(c, v, e, 0) && c.id(e) != c.id(v[i])
    requires Displaced(c, InsertAt(v, i, e), i) == Some(at)
    ensures ExchangeInZone(c, v, e, i, at)
    ensures var w := InsertAt(v, i, e);
            var w' := EraseAt(w, at);
            && w[at] == v[at - 1] && Offerable(c, w', w[at]) && |w'| == |v|
            && at <= FirstHit(c, w', w[at], 0)
  {
    InsertBefore(c, v, e, i);
    ExchangeElements(v, e, i, at);
    ExchangeZoned(c, v, e, i, at);
    DisplacedRanksBehind(c, v, e, i, at);
  }

  // ----- what one add does

  /** x ranks no earlier than any entry, and the vector has no room: x is out for good. */
  ghost predicate Shut<T(!new), Id>(c: Config<T, Id>, v: seq<T>, x: T) {
    && c.maxSize != 0 && |v| == c.maxSize
    && (forall i: nat :: i < |v| ==> Le(c, i, v[i], x))
  }

  ghost predicate HasId<T, Id>(c: Config<T, Id>, v: seq<T>, x: T) {
    exists y :: y in v && c.id(y) == c.id(x)
  }

  /** One add: the result is zoned, made of old entries and e; whoever of these is missing is shut out,
      and whoever was shut out before still is. */
  ghost predicate AddedWell<T(!new), Id>(c: Config<T, Id>, v: seq<T>, e: T, v': seq<T>) {
    && Zoned(c, v') && |v'| >= |v|
    && (forall x :: x in v' ==> x in v || x == e)
    && (forall x :: x in v || x == e ==> HasId(c, v', x) || Shut(c, v', x))
    && (forall x :: Shut(c, v, x) ==> Shut(c, v', x))
  }

  lemma NotAddableIsShut<T(!new), Id>(c: Config<T, Id>, v: seq<T>, e: T)
    requires Offerable(c, v, e) && !IsAddable(c, v, e)
    ensures Shut(c, v, e)
  {
  }

  lemma AppendWell<T(!new), Id>(c: Config<T, Id>, v: seq<T>, e: T)
    requires Offerable(c, v, e) && FirstHit(c, v, e, 0) == |v|
    ensures AddedWell(c, v, e, Truncate(c, v + [e]))
  {
    NothingStops(c, v, e);
    if |v| + 1 > c.maxSize && c.maxSize != 0 {
      assert Truncate(c, v + [e]) == v;
    } else {
      assert forall x :: x in v ==> x in v + [e];
      assert e in v + [e];
    }
  }

  lemma NothingStops<T(!new), Id>(c: Config<T, Id>, v: seq<T>, e: T)
    requires Offerable(c, v, e) && FirstHit(c, v, e, 0) == |v|
    ensures forall i: nat :: i < |v| ==> Le(c, i, v[i], e) && c.id(e) != c.id(v[i])
    ensures c.maxSize != 0 && |v| == c.maxSize ==> Shut(c, v, e)
  {
    forall i: nat | i < |v|
      ensures Le(c, i, v[i], e) && c.id(e) != c.id(v[i])
    {
      assert !Stops(c, v, e, i);
      LeTotal(c, i, e, v[i]);
    }
  }

  lemma ExchangeKeepsShut<T(!new), Id>(c: Config<T, Id>, v: seq<T>, e: T, i: nat, at: nat, x: T)
    requires WellFormed(c) && Zoned(c, v) && ExchangeInZone(c, v, e, i, at)
    requires Shut(c, v, x)
    ensures Shut(c, EraseAt(InsertAt(v, i, e), at), x)
  {
    ExchangeElements(v, e, i, at);
    var w' := EraseAt(InsertAt(v, i, e), at);
    forall k: nat | k < |w'|
      ensures Le(c, k, w'[k], x)
    {
      if k == i {
        LeTotal(c, i, e, v[i]);
        LeTransitive(c, i, e, v[i], x);
      } else if i < k < at {
        assert w'[k] == v[k - 1] && Zone(c, k - 1) == Zone(c, k);
      }
    }
  }

  lemma ExchangeMembers<T(!new), Id>(c: Config<T, Id>, v: seq<T>, e: T, i: nat, at: nat)
    requires i < at <= |v|
    ensures var w' := EraseAt(InsertAt(v, i, e), at);
            && (forall x :: x in w' ==> x in v || x == e)
            && (forall x :: x in v || x == e ==> x in w' || x == v[at - 1])
  {
    ExchangeElements(v, e, i, at);
    var w' := EraseAt(InsertAt(v, i, e), at);
    assert w'[i] == e;
    forall x | x in v && x != v[at - 1]
      ensures x in w'
    {
      var k :| 0 <= k < |v| && v[k] == x;
      assert x == w'[if k < i || k >= at then k else k + 1];
    }
  }

  /** The last entry of a full vector, pushed out by an insertion in the last zone, is shut out. */
  lemma LastIsShut<T(!new), Id>(c: Config<T, Id>, v: seq<T>, e: T, i: nat)
    requires WellFormed(c) && Zoned(c, v) && ExchangeInZone(c, v, e, i, |v|)
    requires c.maxSize != 0 && |v| == c.maxSize
    ensures Shut(c, EraseAt(InsertAt(v, i, e), |v|), v[|v| - 1])
  {
  }

  /** An insertion in the last zone of a full vector pushes out the last entry. */
  lemma PushOutWell<T(!new), Id>(c: Config<T, Id>, v: seq<T>, e: T, i: nat)
    requires WellFormed(c) && Zoned(c, v) && ExchangeInZone(c, v, e, i, |v|)
    requires c.maxSize != 0 && |v| == c.maxSize
    ensures AddedWell(c, v, e, EraseAt(InsertAt(v, i, e), |v|))
  {
    var v' := EraseAt(InsertAt(v, i, e), |v|);
    ExchangeZoned(c, v, e, i, |v|);
    ExchangeMembers(c, v, e, i, |v|);
    LastIsShut(c, v, e, i);
    forall x | Shut(c, v, x)
      ensures Shut(c, v', x)
    {
      ExchangeKeepsShut(c, v, e, i, |v|, x);
    }
  }

  lemma InsertWell<T(!new), Id>(c: Config<T, Id>, v: seq<T>, e: T, i: nat)
    requires Offerable(c, v, e)
    requires i < |v| && i == FirstHit(c, v, e, 0) && c.id(e) != c.id(v[i])
    requires Displaced(c, InsertAt(v, i, e), i) == None
    ensures AddedWell(c, v, e, Truncate(c, InsertAt(v, i, e)))
  {
    hide WellFormed, SameRank;
    InsertBefore(c, v, e, i);
    var w := InsertAt(v, i, e);
    if c.maxSize != 0 && |w| > c.maxSize {
      assert Truncate(c, w) == EraseAt(w, |v|);
      PushOutWell(c, v, e, i);
    } else {
      GrowZoned(c, v, e, i);
      assert w[i] == e;
      assert forall x :: x in v ==> x in v[..i] || x in v[i..];
    }
  }

  /** Inserting without displacing or truncating shifts entries within their zone only. */
  lemma GrowZoned<T(!new), Id>(c: Config<T, Id>, v: seq<T>, e: T, i: nat)
    requires WellFormed(c) && Zoned(c, v) && i < |v|
    requires c.maxSize != 0 ==> |v| < c.maxSize
    requires Displaced(c, InsertAt(v, i, e), i) == None
    requires forall k: nat :: k < i ==> Le(c, k, v[k], e)
    requires forall k: nat :: i <= k < |v| ==> Less(c, i, e, v[k])
    requires forall k: nat :: k < |v| ==> c.id(e) != c.id(v[k])
    ensures Zoned(c, InsertAt(v, i, e))
  {
    var w := InsertAt(v, i, e);
    assert forall k: nat :: i <= k < |w| ==> Zone(c, k) == Zone(c, i);
    assert forall k: nat :: k < |w| ==> w[k] == if k < i then v[k] else if k == i then e else v[k - 1];
    forall k: nat, l: nat | k < l < |w|
      ensures Le(c, k, w[k], w[l]) && c.id(w[k]) != c.id(w[l])
    {
      if k == i {
        LeTotal(c, i, e, w[l]);
      } else if k > i {
        assert Zone(c, k - 1) == Zone(c, k);
      }
    }
  }

  /** The second half of a displacing add: adding the displaced entry again. */
  lemma AddedAgain<T(!new), Id>(c: Config<T, Id>, v: seq<T>, e: T, i: nat, at: nat, v': seq<T>)
    requires WellFormed(c) && Zoned(c, v) && ExchangeInZone(c, v, e, i, at)
    requires AddedWell(c, EraseAt(InsertAt(v, i, e), at), v[at - 1], v')
    ensures AddedWell(c, v, e, v')
  {
    var w' := EraseAt(InsertAt(v, i, e), at);
    ExchangeElements(v, e, i, at);
    ExchangeMembers(c, v, e, i, at);
    forall x | Shut(c, v, x)
      ensures Shut(c, v', x)
    {
      ExchangeKeepsShut(c, v, e, i, at, x);
    }
  }

  /** Every add keeps the vector zoned, loses only what is shut out, and never lets the shut out back. */
  lemma {:induction false} AddWell<T(!new), Id>(c: Config<T, Id>, v: seq<T>, e: T)
    requires Offerable(c, v, e)
    ensures AddedWell(c, v, e, AddTo(c, v, e).elems)
    decreases |v| + 1 - FirstHit(c, v, e, 0)
  {
    var i := FirstHit(c, v, e, 0);
    if !IsAddable(c, v, e) {
      NotAddableIsShut(c, v, e);
    } else if i == |v| {
      AppendWell(c, v, e);
    } else if c.id(e) != c.id(v[i]) {
      var w := InsertAt(v, i, e);
      var at := Displaced(c, w, i);
      if at.None? {
        InsertWell(c, v, e, i);
      } else {
        DisplacedIsOfferable(c, v, e, i, at.value);
        AddWell(c, EraseAt(w, at.value), w[at.value]);
        AddedAgain(c, v, e, i, at.value, AddTo(c, EraseAt(w, at.value), w[at.value]).elems);
      }
    }
  }

  /** The returned position holds the element, with everything in front of it unmoved; -1, or a position
      behind the end, tells that nothing changed. The latter means that the element came too late. */
  ghost predicate PositionTells<T(!new), Id>(c: Config<T, Id>, v: seq<T>, e: T, r: AddResult<T>) {
    && -1 <= r.pos <= |r.elems|
    && (0 <= r.pos < |r.elems| ==> r.pos <= |v| && r.elems[r.pos] == e && r.elems[..r.pos] == v[..r.pos])
    && (r.pos == -1 || r.pos == |r.elems| ==> r.elems == v)
    && (r.pos == |r.elems| ==> Shut(c, v, e))
  }

  lemma {:induction false} ReturnedPosition<T(!new), Id>(c: Config<T, Id>, v: seq<T>, e: T)
    requires Offerable(c, v, e)
    ensures PositionTells(c, v, e, AddTo(c, v, e))
    ensures 0 <= AddTo(c, v, e).pos ==> AddTo(c, v, e).pos == FirstHit(c, v, e, 0)
    decreases |v| + 1 - FirstHit(c, v, e, 0)
  {
    hide WellFormed, SameRank, Shut;
    var i := FirstHit(c, v, e, 0);
    if IsAddable(c, v, e) && i == |v| {
      NothingStops(c, v, e);
      assert |v| == c.maxSize != 0 ==> Truncate(c, v + [e]) == v;
    } else if IsAddable(c, v, e) && c.id(e) != c.id(v[i]) {
      var w := InsertAt(v, i, e);
      var at := Displaced(c, w, i);
      if at.Some? {
        DisplacedIsOfferable(c, v, e, i, at.value);
        var w', temp := EraseAt(w, at.value), w[at.value];
        ReturnedPosition(c, w', temp);
        AddWell(c, w', temp);
        FrontUnmoved(v, e, i, at.value, w', AddTo(c, w', temp));
      } else {
        InsertedHere(c, v, e, i);
      }
    }
  }

  /** Some comparator of the vector does not put e behind the last entry. */
  ghost predicate TiesLast<T, Id>(c: Config<T, Id>, v: seq<T>, e: T)
    requires v != []
  {
    || (c.comparator.Some? && c.comparator.value(e, v[|v| - 1]) <= 0)
    || (c.proxComparator.Some? && c.proxComparator.value(e, v[|v| - 1]) <= 0)
    || (c.proxKeyComparator.Some? && c.proxKeyComparator.value(e, v[|v| - 1]) <= 0)
  }

  /** -1 is the answer exactly if the identity is in the vector, or if the vector is full and every comparator puts the
      element behind the last entry. */
  lemma RefusedIff<T(!new), Id>(c: Config<T, Id>, v: seq<T>, e: T)
    requires Offerable(c, v, e)
    ensures AddTo(c, v, e).pos == -1
            <==> (exists j: nat :: j < |v| && c.id(v[j]) == c.id(e))
                 || (c.maxSize != 0 && |v| == c.maxSize && !TiesLast(c, v, e))
  {
    if HasId(c, v, e) {
      DuplicateIgnored(c, v, e);
      var x :| x in v && c.id(x) == c.id(e);
      var j: nat :| j < |v| && v[j] == x;
    }
  }

  /** A position behind the end is the answer exactly for a new identity that every entry of a full vector ranks before,
      and that some comparator nevertheless does not put behind the last entry. */
  lemma PositionBehindEnd<T(!new), Id>(c: Config<T, Id>, v: seq<T>, e: T)
    requires Offerable(c, v, e)
    ensures AddTo(c, v, e).pos == |AddTo(c, v, e).elems|
            <==> c.maxSize != 0 && |v| == c.maxSize && (forall j: nat :: j < |v| ==> c.id(v[j]) != c.id(e))
                 && (forall i: nat :: i < |v| ==> Le(c, i, v[i], e)) && TiesLast(c, v, e)
  {
    ReturnedPosition(c, v, e);
    RefusedIff(c, v, e);
    if HasId(c, v, e) {
      DuplicateIgnored(c, v, e);
    } else if Shut(c, v, e) {
      ShutOutStaysOut(c, v, e);
    }
  }

  lemma InsertedHere<T, Id>(c: Config<T, Id>, v: seq<T>, e: T, i: nat)
    requires i < |v| && (c.maxSize != 0 ==> |v| <= c.maxSize)
    ensures var r := Truncate(c, InsertAt(v, i, e)); i < |r| && r[i] == e && r[..i] == v[..i]
  {
  }

  lemma FrontUnmoved<T>(v: seq<T>, e: T, i: nat, at: nat, w: seq<T>, r: AddResult<T>)
    requires i < at <= |v| && w == EraseAt(InsertAt(v, i, e), at) && |r.elems| >= |v|
    requires at <= r.pos < |r.elems| ==> r.pos <= |w| && r.elems[..r.pos] == w[..r.pos]
    requires at <= r.pos < |r.elems| || r.elems == w
    ensures r.elems[i] == e && r.elems[..i] == v[..i]
  {
    ExchangeElements(v, e, i, at);
    assert forall k :: 0 <= k < at ==> r.elems[k] == w[k] by {
      if r.elems != w {
        assert forall k :: 0 <= k < at ==> r.elems[k] == r.elems[..r.pos][k] == w[..r.pos][k];
      }
    }
  }

  /** Adding an element that is already shut out changes nothing. */
  lemma ShutOutStaysOut<T(!new), Id>(c: Config<T, Id>, v: seq<T>, e: T)
    requires Offerable(c, v, e) && Shut(c, v, e)
    ensures AddTo(c, v, e).elems == v
    ensures AddTo(c, v, e).pos == -1 || AddTo(c, v, e).pos == |v|
  {
  }

  /** Adding an identity that is present changes nothing. */
  lemma DuplicateIgnored<T(!new), Id>(c: Config<T, Id>, v: seq<T>, e: T)
    requires Offerable(c, v, e) && HasId(c, v, e)
    ensures AddTo(c, v, e) == AddResult(v, -1)
  {
    var j: nat :| j < |v| && c.id(v[j]) == c.id(e);
    var i := FirstHit(c, v, e, 0);
    assert Stops(c, v, e, j);
    if c.id(v[i]) != c.id(e) {
      InsertBefore(c, v, e, i);
      assert false;
    }
  }

  /** Once out, never back: whatever is added, an evicted identity does not return. */
  lemma EvictedNeverReturns<T(!new), Id>(c: Config<T, Id>, v: seq<T>, e: T, x: T)
    requires Offerable(c, v, e) && SameRank(c, x, e)
    requires Shut(c, v, x) && !HasId(c, v, x)
    ensures Shut(c, AddTo(c, v, e).elems, x) && !HasId(c, AddTo(c, v, e).elems, x)
  {
    AddWell(c, v, e);
    if c.id(e) == c.id(x) {
      forall i: nat | i < |v|
        ensures Le(c, i, v[i], e)
      {
        LeTransitive(c, i, v[i], x, e);
      }
      ShutOutStaysOut(c, v, e);
    }
  }

  // ----- a stream of adds

  /** One identity is always offered with the same proximity and key. */
  ghost predicate Consistent<T(!new), Id>(c: Config<T, Id>, s: seq<T>) {
    forall x, y :: x in s && y in s ==> SameRank(c, x, y)
  }

  /** v holds the best of what was offered: zone by zone, nobody left out could rank earlier. */
  ghost predicate Best<T(!new), Id>(c: Config<T, Id>, v: seq<T>, offered: seq<T>) {
    && Zoned(c, v)
    && (forall x :: x in v ==> x in offered)
    && (forall x :: x in offered ==> HasId(c, v, x) || Shut(c, v, x))
  }

  lemma AddKeepsBest<T(!new), Id>(c: Config<T, Id>, v: seq<T>, offered: seq<T>, e: T)
    requires WellFormed(c) && Best(c, v, offered) && Consistent(c, offered + [e])
    ensures Offerable(c, v, e) && Best(c, AddTo(c, v, e).elems, offered + [e])
  {
    assert forall x :: x in offered || x == e ==> x in offered + [e];
    assert e in offered + [e];
    forall x | x in v
      ensures SameRank(c, e, x)
    {
      assert x in offered + [e];
    }
    AddWell(c, v, e);
    var v' := AddTo(c, v, e).elems;
    forall x | x in offered + [e]
      ensures HasId(c, v', x) || Shut(c, v', x)
    {
      if x != e && HasId(c, v, x) && !HasId(c, v', x) {
        var y :| y in v && c.id(y) == c.id(x);
        assert !HasId(c, v', y);
        assert SameRank(c, y, x);
        ShutSameRank(c, v', y, x);
      }
    }
  }

  lemma ShutSameRank<T(!new), Id>(c: Config<T, Id>, v: seq<T>, y: T, x: T)
    requires WellFormed(c) && Zoned(c, v) && Shut(c, v, y) && c.id(x) == c.id(y) && SameRank(c, y, x)
    ensures Shut(c, v, x)
  {
    forall i: nat | i < |v|
      ensures Le(c, i, v[i], x)
    {
      LeTransitive(c, i, v[i], y, x);
    }
  }

  /** The vector after offering all elements of a stream, in order. */
  ghost function AddAll<T(!new), Id>(c: Config<T, Id>, s: seq<T>): (v: seq<T>)
    requires WellFormed(c) && Consistent(c, s)
    ensures Best(c, v, s)
  {
    if s == [] then []
    else
      var front := s[..|s| - 1];
      assert s == front + [s[|s| - 1]];
      AddKeepsBest(c, AddAll(c, front), front, s[|s| - 1]);
      AddTo(c, AddAll(c, front), s[|s| - 1]).elems
  }

  /** What Best means position by position: the entry at i is the best, in the ranking of its zone, of
      all offered elements that do not stand in front of it. */
  lemma ZoneWiseBest<T(!new), Id>(c: Config<T, Id>, v: seq<T>, offered: seq<T>, i: nat, x: T)
    requires WellFormed(c) && Best(c, v, offered) && Consistent(c, offered)
    requires i < |v| && x in offered && !HasId(c, v[..i], x)
    ensures Le(c, i, v[i], x)
  {
    assert forall j :: 0 <= j < i ==> v[j] in v[..i];
    if HasId(c, v, x) {
      var j: nat :| j < |v| && c.id(v[j]) == c.id(x);
      assert SameRank(c, v[j], x);
      LeTotal(c, i, v[i], v[i]);
      LeTransitive(c, i, v[i], v[j], x);
    }
  }

  /** Different identities never tie. */
  ghost predicate Strict<T(!new), Id>(c: Config<T, Id>) {
    forall i: nat, x, y :: Usable(c, i) && Le(c, i, x, y) && Le(c, i, y, x) ==> c.id(x) == c.id(y)
  }

  /** The same identities in the same order. */
  ghost predicate SameIds<T(!new), Id>(c: Config<T, Id>, v: seq<T>, w: seq<T>) {
    |v| == |w| && forall i :: 0 <= i < |v| ==> c.id(v[i]) == c.id(w[i])
  }

  lemma {:induction false} SamePrefix<T(!new), Id>(c: Config<T, Id>, v: seq<T>, w: seq<T>, offered: seq<T>, n: nat)
    requires WellFormed(c) && Strict(c) && Consistent(c, offered)
    requires Best(c, v, offered) && Best(c, w, offered)
    requires n <= |v| && n <= |w|
    ensures SameIds(c, v[..n], w[..n])
  {
    if n > 0 {
      var i := n - 1;
      SamePrefix(c, v, w, offered, i);
      hide WellFormed, Strict, Best, Consistent;
      SameNext(c, v, w, offered, i);
      assert forall k :: 0 <= k < i ==> v[..n][k] == v[..i][k] && w[..n][k] == w[..i][k];
    }
  }

  lemma SameNext<T(!new), Id>(c: Config<T, Id>, v: seq<T>, w: seq<T>, offered: seq<T>, i: nat)
    requires WellFormed(c) && Strict(c) && Consistent(c, offered)
    requires Best(c, v, offered) && Best(c, w, offered)
    requires i < |v| && i < |w| && SameIds(c, v[..i], w[..i])
    ensures c.id(v[i]) == c.id(w[i])
  {
    NotAmongFirst(c, v, w, i);
    NotAmongFirst(c, w, v, i);
    ZoneWiseBest(c, v, offered, i, w[i]);
    ZoneWiseBest(c, w, offered, i, v[i]);
  }

  lemma NotAmongFirst<T(!new), Id>(c: Config<T, Id>, v: seq<T>, w: seq<T>, i: nat)
    requires Zoned(c, w) && i < |w| && i <= |v| && SameIds(c, v[..i], w[..i])
    ensures !HasId(c, v[..i], w[i])
  {
  }

  lemma NotShorter<T(!new), Id>(c: Config<T, Id>, v: seq<T>, w: seq<T>, offered: seq<T>)
    requires WellFormed(c) && Strict(c) && Consistent(c, offered)
    requires Best(c, v, offered) && Best(c, w, offered)
    ensures |v| >= |w|
  {
    if |v| < |w| {
      var x := w[|v|];
      SamePrefix(c, v, w, offered, |v|);
      assert v[..|v|] == v;
      NotAmongFirst(c, v, w, |v|);
      assert false;
    }
  }

  /** With strict rankings the order of the stream does not matter: two streams that offer the same
      elements, in any order and multiplicity, end in the same vector. */
  lemma OrderDoesNotMatter<T(!new), Id>(c: Config<T, Id>, s: seq<T>, t: seq<T>)
    requires WellFormed(c) && Strict(c) && Consistent(c, s) && Consistent(c, t)
    requires forall x :: x in s <==> x in t
    ensures SameIds(c, AddAll(c, s), AddAll(c, t))
  {
    var v, w := AddAll(c, s), AddAll(c, t);
    assert Best(c, w, s);
    NotShorter(c, v, w, s);
    NotShorter(c, w, v, s);
    SamePrefix(c, v, w, s, |v|);
    assert v[..|v|] == v && w[..|v|] == w;
  }

  /** The vector as the source keeps it: one sequence, changed in place. */
  class BaseKeySortedVector<T(!new), Id(==)> {
    const c: Config<T, Id>
    var elems: seq<T>

    constructor (c: Config<T, Id>)
      ensures this.c == c && elems == []
    {
      this.c := c;
      elems := [];
    }

    method Add(e: T) returns (pos: int)
      requires Offerable(c, elems, e)
      modifies this
      ensures var r := AddTo(c, old(elems), e); elems == r.elems && pos == r.pos
      decreases |elems| + 1 - FirstHit(c, elems, e, 0), 1
    {
      pos := -1;
      if IsAddable(c, elems, e) {
        if |elems| != 0 && (c.comparator.Some? || c.proxComparator.Some? || c.proxKeyComparator.Some?) {
          pos := 0;
          var inserted := false;
          while pos < |elems|
            invariant 0 <= pos <= |elems| && elems == old(elems)
            invariant FirstHit(c, elems, e, pos) == FirstHit(c, elems, e, 0)
          {
            if c.id(e) == c.id(elems[pos]) {
              return -1;
            }
            if Less(c, pos, e, elems[pos]) {
              InsertBeforeEntry(e, pos);
              inserted := true;
              break;
            }
            pos := pos + 1;
          }
          if !inserted {
            pos := |elems|;
            elems := elems + [e];
          }
        } else {
          pos := |elems|;
          elems := elems + [e];
        }
        if c.maxSize != 0 && |elems| > c.maxSize {
          elems := elems[..c.maxSize];
        }
      }
    }

    /** The insertion of e in front of the entry at pos; an entry that leaves its zone is added again. */
    method InsertBeforeEntry(e: T, pos: nat)
      requires Offerable(c, elems, e)
      requires pos < |elems| && pos == FirstHit(c, elems, e, 0) && c.id(e) != c.id(elems[pos])
      modifies this
      ensures var w := InsertAt(old(elems), pos, e);
              var at := Displaced(c, w, pos);
              && (at.None? ==> elems == w)
              && (at.Some? ==>
                  && Offerable(c, EraseAt(w, at.value), w[at.value])
                  && elems == AddTo(c, EraseAt(w, at.value), w[at.value]).elems)
      decreases |elems| + 1 - FirstHit(c, elems, e, 0), 0
    {
      hide WellFormed, Zoned, SameRank, AddTo;
      elems := elems[..pos] + [e] + elems[pos..];
      var end := if pos < c.sizeProx then c.sizeProx else c.sizeProx + c.sizeComb;
      if pos < end {
        var tempPos := pos;
        while tempPos < end && tempPos < |elems|
          invariant tempPos <= end && tempPos <= |elems|
        {
          tempPos := tempPos + 1;
        }
        var limited := if pos < c.sizeProx then tempPos else pos;
        if tempPos >= end && limited < c.maxSize && tempPos < |elems| {
          DisplacedIsOfferable(c, old(elems), e, pos, tempPos);
          var temp := elems[tempPos];
          elems := elems[..tempPos] + elems[tempPos + 1..];
          var _ := Add(temp);
        }
      }
    }
  }
}
