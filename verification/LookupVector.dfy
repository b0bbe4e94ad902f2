/** The two vectors of an iterative lookup (src/common/IterativeLookup.h): both are ranked only by the
    distance of a node's key from the key looked up. */
module LookupVector {
  import opened NodeVector
  import opened Wrappers

  type Key = nat

  /** TransportAddress: what visited, dead, pinged and pending nodes are known by. */
  type Addr = nat

  datatype NodeHandle = NodeHandle(key: Key, addr: Addr)

  datatype LookupEntry = LookupEntry(handle: NodeHandle, source: Option<NodeHandle>, alreadyUsed: bool)

  /** compareTo on distances */
  function Compare(x: nat, y: nat): int {
    if x < y then -1 else if x > y then 1 else 0
  }

  /** A vector of at most `max` entries ranked by distance of their keys. */
  function KeyConfig<T>(max: nat, key: T -> Key, distance: Key -> nat): Config<T, Key> {
    Config(max, Some((x: T, y: T) => Compare(distance(key(x)), distance(key(y)))), None, None, 0, 0, key)
  }

  function SiblingConfig(max: nat, distance: Key -> nat): Config<NodeHandle, Key> {
    KeyConfig(max, (h: NodeHandle) => h.key, distance)
  }

  function HopsConfig(max: nat, distance: Key -> nat): Config<LookupEntry, Key> {
    KeyConfig(max, (e: LookupEntry) => e.handle.key, distance)
  }

  lemma KeyLe<T(!new)>(max: nat, key: T -> Key, distance: Key -> nat, i: nat, x: T, y: T)
    ensures Le(KeyConfig(max, key, distance), i, x, y) <==> distance(key(x)) <= distance(key(y))
  {
  }

  lemma KeyOfferable<T(!new)>(max: nat, key: T -> Key, distance: Key -> nat, v: seq<T>, e: T)
    requires Zoned(KeyConfig(max, key, distance), v)
    ensures Offerable(KeyConfig(max, key, distance), v, e)
  {
  }

  /** Room, or a distance that is no larger than that of the last entry, makes an element addable. */
  lemma KeyAddableIff<T(!new)>(max: nat, key: T -> Key, distance: Key -> nat, v: seq<T>, e: T)
    ensures IsAddable(KeyConfig(max, key, distance), v, e)
            <==> max == 0 || |v| != max || distance(key(e)) <= distance(key(v[|v| - 1]))
  {
  }

  /** -1 is the answer exactly for a key that is present, or farther than the last one of a full vector. */
  lemma KeyRefusedIff<T(!new)>(max: nat, key: T -> Key, distance: Key -> nat, v: seq<T>, e: T)
    requires Zoned(KeyConfig(max, key, distance), v)
    ensures AddTo(KeyConfig(max, key, distance), v, e).pos == -1
            <==> (exists x :: x in v && key(x) == key(e))
                 || (max != 0 && |v| == max && distance(key(e)) > distance(key(v[max - 1])))
  {
    var c := KeyConfig(max, key, distance);
    KeyOfferable(max, key, distance, v, e);
    RefusedIff(c, v, e);
    if x :| x in v && key(x) == key(e) {
      var j: nat :| j < |v| && v[j] == x;
      assert c.id(v[j]) == c.id(e);
    }
  }

  // ----- the next hops of a path

  predicate HasKey(v: seq<LookupEntry>, k: Key) {
    exists e :: e in v && e.handle.key == k
  }

  /** The vector is full of keys that are no farther than k: k cannot come in any more. */
  ghost predicate KeyShut(max: nat, distance: Key -> nat, v: seq<LookupEntry>, k: Key) {
    max != 0 && |v| == max && forall e :: e in v ==> distance(e.handle.key) <= distance(k)
  }

  /** The next hops, of which the keys in `used` have been queried: such a key is marked, or it was
      evicted and is shut out. */
  ghost predicate HopsOk(max: nat, distance: Key -> nat, v: seq<LookupEntry>, used: set<Key>) {
    && Zoned(HopsConfig(max, distance), v)
    && (forall e :: e in v ==> (e.alreadyUsed <==> e.handle.key in used))
    && (forall k :: k in used ==> HasKey(v, k) || KeyShut(max, distance, v, k))
  }

  lemma ShutIsKeyShut(max: nat, distance: Key -> nat, v: seq<LookupEntry>, e: LookupEntry)
    ensures Shut(HopsConfig(max, distance), v, e) <==> KeyShut(max, distance, v, e.handle.key)
  {
    var c := HopsConfig(max, distance);
    forall i: nat | i < |v|
      ensures Le(c, i, v[i], e) <==> distance(v[i].handle.key) <= distance(e.handle.key)
    {
      KeyLe(max, (e: LookupEntry) => e.handle.key, distance, i, v[i], e);
    }
  }

  /** Adding an unused entry never brings back a key that was queried. */
  lemma AddHop(max: nat, distance: Key -> nat, v: seq<LookupEntry>, used: set<Key>, e: LookupEntry)
    requires HopsOk(max, distance, v, used) && !e.alreadyUsed
    ensures Offerable(HopsConfig(max, distance), v, e)
    ensures HopsOk(max, distance, AddTo(HopsConfig(max, distance), v, e).elems, used)
    ensures e.handle.key in used ==> AddTo(HopsConfig(max, distance), v, e).elems == v
  {
    var c := HopsConfig(max, distance);
    KeyOfferable(max, (e: LookupEntry) => e.handle.key, distance, v, e);
    if e.handle.key in used {
      ShutIsKeyShut(max, distance, v, e);
      if HasKey(v, e.handle.key) {
        assert HasId(c, v, e);
        DuplicateIgnored(c, v, e);
      } else {
        ShutOutStaysOut(c, v, e);
      }
    } else {
      AddWell(c, v, e);
      var v' := AddTo(c, v, e).elems;
      forall k | k in used
        ensures HasKey(v', k) || KeyShut(max, distance, v', k)
      {
        UsedKeyStays(max, distance, v, e, k);
      }
    }
  }

  /** A key that is in stays in, or is shut out; an evicted one never returns. */
  lemma UsedKeyStays(max: nat, distance: Key -> nat, v: seq<LookupEntry>, e: LookupEntry, k: Key)
    requires Offerable(HopsConfig(max, distance), v, e) && (HasKey(v, k) || KeyShut(max, distance, v, k))
    ensures var v' := AddTo(HopsConfig(max, distance), v, e).elems; HasKey(v', k) || KeyShut(max, distance, v', k)
  {
    var c := HopsConfig(max, distance);
    var v' := AddTo(c, v, e).elems;
    if HasKey(v, k) {
      var x :| x in v && x.handle.key == k;
      AddWell(c, v, e);
      ShutIsKeyShut(max, distance, v', x);
    } else {
      var x := LookupEntry(NodeHandle(k, 0), None, false);
      ShutIsKeyShut(max, distance, v, x);
      EvictedNeverReturns(c, v, e, x);
      ShutIsKeyShut(max, distance, v', x);
    }
  }

  /** Marking an entry as used. */
  lemma MarkHop(max: nat, distance: Key -> nat, v: seq<LookupEntry>, used: set<Key>, i: nat)
    requires HopsOk(max, distance, v, used) && i < |v|
    ensures HopsOk(max, distance, v[i := v[i].(alreadyUsed := true)], used + {v[i].handle.key})
  {
    var c := HopsConfig(max, distance);
    var w := v[i := v[i].(alreadyUsed := true)];
    var key := (e: LookupEntry) => e.handle.key;
    forall j: nat, k: nat | j < k < |w|
      ensures Le(c, j, w[j], w[k]) && c.id(w[j]) != c.id(w[k])
    {
      KeyLe(max, key, distance, j, w[j], w[k]);
      KeyLe(max, key, distance, j, v[j], v[k]);
    }
    forall e | e in w
      ensures e.alreadyUsed <==> e.handle.key in used + {v[i].handle.key}
      ensures HasKey(v, e.handle.key)
    {
      var j: nat :| j < |w| && w[j] == e;
      assert c.id(v[j]) == v[j].handle.key && c.id(v[i]) == v[i].handle.key;
    }
    forall k | k in used + {v[i].handle.key}
      ensures HasKey(w, k) || KeyShut(max, distance, w, k)
    {
      if HasKey(v, k) {
        var j: nat :| j < |v| && v[j].handle.key == k;
        assert w[j] in w;
      } else {
        assert forall e :: e in w ==> exists x :: x in v && x.handle.key == e.handle.key;
      }
    }
  }

  lemma KeyConsistent<T(!new)>(max: nat, key: T -> Key, distance: Key -> nat, s: seq<T>)
    ensures WellFormed(KeyConfig(max, key, distance)) && Consistent(KeyConfig(max, key, distance), s)
  {
  }

  /** Adding a node to the siblings keeps them the closest of all offered. */
  lemma AddSiblingKeepsBest(max: nat, distance: Key -> nat, v: seq<NodeHandle>, offered: seq<NodeHandle>,
                            handle: NodeHandle)
    requires max > 0 && Best(SiblingConfig(max, distance), v, offered)
    ensures Offerable(SiblingConfig(max, distance), v, handle)
    ensures var v' := AddTo(SiblingConfig(max, distance), v, handle).elems;
            && Best(SiblingConfig(max, distance), v', offered + [handle]) && |v'| <= max
            && (forall x :: x in v' ==> x in v || x == handle)
  {
    KeyConsistent(max, (h: NodeHandle) => h.key, distance, offered + [handle]);
    AddKeepsBest(SiblingConfig(max, distance), v, offered, handle);
    AddWell(SiblingConfig(max, distance), v, handle);
  }

  /** Two nodes at one distance, and room for one: the second is not in the vector, but gets a position. */
  lemma TieIsAnsweredBehindEnd(distance: Key -> nat, x: NodeHandle, y: NodeHandle)
    requires x.key != y.key && distance(x.key) == distance(y.key)
    ensures AddTo(SiblingConfig(1, distance), [x], y) == AddResult([x], 1)
  {
    var c := SiblingConfig(1, distance);
    KeyOfferable(1, (h: NodeHandle) => h.key, distance, [x], y);
    KeyLe(1, (h: NodeHandle) => h.key, distance, 0, x, y);
    PositionBehindEnd(c, [x], y);
    ReturnedPosition(c, [x], y);
  }

  /** In order of distance, without repetition, only nodes of those given, and the closest ones of them: whoever is left
      out is no closer than anybody in a full vector. */
  ghost predicate Closest(max: nat, distance: Key -> nat, v: seq<NodeHandle>, nodes: seq<NodeHandle>) {
    && |v| <= max
    && (forall i, j :: 0 <= i < j < |v| ==> distance(v[i].key) <= distance(v[j].key) && v[i].key != v[j].key)
    && (forall h :: h in v ==> h in nodes)
    && (forall h :: h in nodes ==>
          (exists y :: y in v && y.key == h.key)
              || (|v| == max && forall y :: y in v ==> distance(y.key) <= distance(h.key)))
  }

  lemma BestIsClosest(max: nat, distance: Key -> nat, v: seq<NodeHandle>, nodes: seq<NodeHandle>)
    requires max > 0 && Best(SiblingConfig(max, distance), v, nodes)
    ensures Closest(max, distance, v, nodes)
  {
    var c := SiblingConfig(max, distance);
    var key := (h: NodeHandle) => h.key;
    forall i: nat, j: nat | i < j < |v|
      ensures distance(v[i].key) <= distance(v[j].key) && v[i].key != v[j].key
    {
      KeyLe(max, key, distance, i, v[i], v[j]);
    }
    forall h | h in nodes
      ensures (exists y :: y in v && y.key == h.key)
              || (|v| == max && forall y :: y in v ==> distance(y.key) <= distance(h.key))
    {
      if !HasId(c, v, h) {
        assert Shut(c, v, h);
        forall y | y in v
          ensures distance(y.key) <= distance(h.key)
        {
          var i: nat :| i < |v| && v[i] == y;
          KeyLe(max, key, distance, i, v[i], h);
        }
      }
    }
  }
}
